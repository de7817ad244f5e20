/** Rotation of encrypted rows under concurrent ordinary writes
    (apps/api/src/crypto/rotate-encryption-key.ts, apps/api/src/crypto/rotation-tables.ts). */
module KeyRotation {
  import opened Common
  import opened KeyRings

  /** Encrypted rows by id. */
  type Rows = map<string, Secret>

  /** What the whole rotation takes for granted: the primitive, the ring, and the associated data that
      the owner columns of each row determine. */
  datatype World = World(aead: Aead, ring: Ring, aadOf: string -> Bytes)

  /** An ordinary write by some instance, under any version of the ring, or a deletion. */
  datatype Write = Put(id: string, plain: Bytes, version: int, nonce: Bytes) | Remove(id: string)

  ghost predicate Legal(w: World, write: Write) {
    write.Put? ==> write.version in w.ring.keys && |write.nonce| == NONCE_BYTES
  }

  function Read(w: World, id: string, s: Secret): Option<Bytes> { Decrypt(w.aead, w.ring, s, w.aadOf(id)) }

  function Sealed(w: World, write: Write): Secret
    requires write.Put? && write.version in w.ring.keys
  {
    Encrypt(w.aead, w.ring, write.version, write.plain, w.aadOf(write.id), write.nonce)
  }

  function Written(w: World, rows: Rows, write: Write): Rows {
    match write
    case Put(id, _, version, _) => if version in w.ring.keys then rows[id := Sealed(w, write)] else rows
    case Remove(id) => rows - {id}
  }

  function WrittenAll(w: World, rows: Rows, writes: seq<Write>): Rows {
    if writes == [] then rows else Written(w, WrittenAll(w, rows, writes[..|writes| - 1]), writes[|writes| - 1])
  }

  /** What a row must hold: the plaintext of the last ordinary write, or the very bytes that were there
      when they cannot be read. */
  datatype Content = Readable(plain: Bytes) | Unreadable(secret: Secret)

  type Expectation = map<string, Content>

  function ContentOf(w: World, id: string, s: Secret): Content {
    if Read(w, id, s).Some? then Readable(Read(w, id, s).value) else Unreadable(s)
  }

  function Observe(w: World, rows: Rows): Expectation {
    map id | id in rows :: ContentOf(w, id, rows[id])
  }

  /** The expectation follows ordinary writes only; rotation never enters into it. */
  function Expect(w: World, e: Expectation, write: Write): Expectation {
    match write
    case Put(id, plain, version, _) =>
      if version !in w.ring.keys then e
      else e[id := if plain != "" then Readable(plain) else Unreadable(Sealed(w, write))]
    case Remove(id) => e - {id}
  }

  function ExpectAll(w: World, e: Expectation, writes: seq<Write>): Expectation {
    if writes == [] then e else Expect(w, ExpectAll(w, e, writes[..|writes| - 1]), writes[|writes| - 1])
  }

  /** Every row holds what is expected of it. */
  ghost predicate Faithful(w: World, rows: Rows, e: Expectation) {
    rows.Keys == e.Keys && forall id :: id in rows ==> ContentOf(w, id, rows[id]) == e[id]
  }

  lemma WriteKeepsFaithful(w: World, rows: Rows, e: Expectation, write: Write)
    requires IsGcm(w.aead) && Legal(w, write) && Faithful(w, rows, e)
    ensures Faithful(w, Written(w, rows, write), Expect(w, e, write))
  {
    if write.Put? {
      RoundTripsUnlessEmpty(w.aead, w.ring, write.version, write.plain, w.aadOf(write.id), write.nonce);
    }
  }

  datatype RotationRow = RotationRow(id: string, secret: Secret)

  /** Compare-and-swap on version, text and nonce: rewrites the row only if it is still as it was read. */
  function Swapped(rows: Rows, r: RotationRow, next: Secret): Rows {
    if r.id in rows && rows[r.id] == r.secret then rows[r.id := next] else rows
  }

  function Reencrypted(w: World, r: RotationRow, nonce: Bytes): Secret
    requires w.ring.current in w.ring.keys && Read(w, r.id, r.secret).Some?
  {
    Encrypt(w.aead, w.ring, w.ring.current, Read(w, r.id, r.secret).value, w.aadOf(r.id), nonce)
  }

  lemma ReadIsNotEmpty(w: World, id: string, s: Secret)
    requires IsGcm(w.aead) && Read(w, id, s).Some?
    ensures Read(w, id, s).value != ""
  {
  }

  /** The rewritten row decrypts to the same plaintext, so a swap is invisible to every reader, no matter
      what was written since the row was read. */
  lemma SwapKeepsFaithful(w: World, rows: Rows, e: Expectation, r: RotationRow, nonce: Bytes)
    requires IsGcm(w.aead) && w.ring.current in w.ring.keys && |nonce| == NONCE_BYTES
    requires Faithful(w, rows, e) && Read(w, r.id, r.secret).Some?
    ensures var next := Reencrypted(w, r, nonce);
            Read(w, r.id, next) == Read(w, r.id, r.secret) && Faithful(w, Swapped(rows, r, next), e)
  {
    ReadIsNotEmpty(w, r.id, r.secret);
    RoundTripsUnlessEmpty(w.aead, w.ring, w.ring.current, Read(w, r.id, r.secret).value, w.aadOf(r.id), nonce);
  }

  // ---------- what goes on around a rotation ----------

  datatype Counts = Counts(scanned: nat, rotated: nat, alreadyCurrent: nat, failed: nat, conflicts: nat)

  /** Everything outside the command: the writes that land before each access to the table, which
      updates the database refuses, and the random nonces. */
  datatype Surroundings = Surroundings(writesBefore: nat -> seq<Write>, refuses: nat -> bool, nonce: nat -> Bytes)

  ghost predicate LegalSurroundings(w: World, s: Surroundings) {
    && (forall k, i :: 0 <= i < |s.writesBefore(k)| ==> Legal(w, s.writesBefore(k)[i]))
    && (forall k :: |s.nonce(k)| == NONCE_BYTES)
  }

  /** All the writes of the first `n` accesses, in order. */
  function WritesUntil(s: Surroundings, n: nat): seq<Write> {
    if n == 0 then [] else WritesUntil(s, n - 1) + s.writesBefore(n - 1)
  }

  /** No write touches the row. */
  ghost predicate Untouched(writes: seq<Write>, id: string) {
    forall i :: 0 <= i < |writes| ==> writes[i].id != id
  }

  ghost predicate ListsExactly(w: World, rows: Rows, list: seq<RotationRow>, current: bool) {
    && (forall i, j :: 0 <= i < j < |list| ==> list[i].id != list[j].id)
    && (forall r :: r in list ==>
          r.id in rows && rows[r.id] == r.secret && ((r.secret.keyVersion == w.ring.current) == current))
    && (forall id :: id in rows && ((rows[id].keyVersion == w.ring.current) == current) ==>
        RotationRow(id, rows[id]) in list)
  }

  lemma {:induction false} WritesConcat(w: World, rows: Rows, a: seq<Write>, b: seq<Write>)
    ensures WrittenAll(w, rows, a + b) == WrittenAll(w, WrittenAll(w, rows, a), b)
  {
    if b == [] {
      assert a + b == a;
    } else {
      assert (a + b)[..|a + b| - 1] == a + b[..|b| - 1];
      WritesConcat(w, rows, a, b[..|b| - 1]);
    }
  }

  lemma {:induction false} ExpectConcat(w: World, e: Expectation, a: seq<Write>, b: seq<Write>)
    ensures ExpectAll(w, e, a + b) == ExpectAll(w, ExpectAll(w, e, a), b)
  {
    if b == [] {
      assert a + b == a;
    } else {
      assert (a + b)[..|a + b| - 1] == a + b[..|b| - 1];
      ExpectConcat(w, e, a, b[..|b| - 1]);
    }
  }

  lemma {:induction false} WritesKeepFaithful(w: World, rows: Rows, e: Expectation, writes: seq<Write>)
    requires IsGcm(w.aead) && Faithful(w, rows, e) && forall i :: 0 <= i < |writes| ==> Legal(w, writes[i])
    ensures Faithful(w, WrittenAll(w, rows, writes), ExpectAll(w, e, writes))
  {
    if writes != [] {
      var front := writes[..|writes| - 1];
      WritesKeepFaithful(w, rows, e, front);
      WriteKeepsFaithful(w, WrittenAll(w, rows, front), ExpectAll(w, e, front), writes[|writes| - 1]);
    }
  }

  lemma {:induction false} WritesElsewhere(w: World, rows: Rows, writes: seq<Write>, id: string)
    requires Untouched(writes, id)
    ensures id in WrittenAll(w, rows, writes) <==> id in rows
    ensures id in rows ==> WrittenAll(w, rows, writes)[id] == rows[id]
  {
    if writes != [] {
      WritesElsewhere(w, rows, writes[..|writes| - 1], id);
    }
  }

  // ---------- one row ----------

  datatype Outcome = Rotated | Failed | Conflict

  datatype Attempt = Attempt(rows: Rows, outcome: Outcome, accesses: nat)

  function Attempted(w: World, s: Surroundings, rows: Rows, r: RotationRow, dryRun: bool, n: nat): Attempt
    requires w.ring.current in w.ring.keys
  {
    if Read(w, r.id, r.secret).None? then Attempt(rows, Failed, n)
    else if dryRun then Attempt(rows, Rotated, n)
    else
      var mid := WrittenAll(w, rows, s.writesBefore(n));
      if s.refuses(n) then Attempt(mid, Failed, n + 1)
      else
        var same := r.id in mid && mid[r.id] == r.secret;
        Attempt(Swapped(mid, r, Reencrypted(w, r, s.nonce(n))), if same then Rotated else Conflict, n + 1)
  }

  // ---------- progress of one table ----------

  /** Nothing is left to rotate. */
  ghost predicate Settled(w: World, rows: Rows) {
    forall id :: id in rows && Read(w, id, rows[id]).Some? ==> rows[id].keyVersion == w.ring.current
  }

  lemma SettledRowFails(w: World, s: Surroundings, listed: Rows, rows: Rows, todo: seq<RotationRow>, i: nat,
                        dryRun: bool, n: nat)
    requires w.ring.current in w.ring.keys && i < |todo| && ListsExactly(w, listed, todo, false)
    ensures Settled(w, listed) ==> Attempted(w, s, rows, todo[i], dryRun, n).outcome == Failed
  {
  }

  /** Every readable row that no write touched is at the current version. */
  ghost predicate CaughtUp(w: World, before: Rows, rows: Rows, writes: seq<Write>) {
    forall id :: id in before && Untouched(writes, id) && Read(w, id, before[id]).Some? ==>
        id in rows && rows[id].keyVersion == w.ring.current
  }

  /** Every readable row that no write touched is at the current version, or unchanged and still to do. */
  ghost predicate OnTheWay(w: World, before: Rows, rows: Rows, writes: seq<Write>, todo: seq<RotationRow>) {
    forall id :: id in before && Untouched(writes, id) && Read(w, id, before[id]).Some? ==>
        && id in rows
        && (rows[id].keyVersion == w.ring.current || (rows[id] == before[id] && RotationRow(id, before[id]) in todo))
  }

  ghost predicate InProgress(w: World, s: Surroundings, before: Rows, rows: Rows, todo: seq<RotationRow>,
                             dryRun: bool, n: nat)
  {
    && Faithful(w, rows, ExpectAll(w, Observe(w, before), WritesUntil(s, n)))
    && (dryRun ==> rows == WrittenAll(w, before, WritesUntil(s, n)))
    && (!dryRun && (forall k :: !s.refuses(k)) ==> OnTheWay(w, before, rows, WritesUntil(s, n), todo))
  }

  lemma ObserveIsFaithful(w: World, rows: Rows)
    ensures Faithful(w, rows, Observe(w, rows))
  {
  }

  lemma OneMoreAccess(s: Surroundings, n: nat)
    ensures WritesUntil(s, n + 1) == WritesUntil(s, n) + s.writesBefore(n)
    ensures n == 0 ==> WritesUntil(s, n + 1) == s.writesBefore(0)
  {
  }

  /** A batch of writes keeps the rows faithful to the history that includes it. */
  lemma BatchKeepsFaithful(w: World, s: Surroundings, before: Rows, rows: Rows, n: nat)
    requires IsGcm(w.aead) && LegalSurroundings(w, s)
    requires Faithful(w, rows, ExpectAll(w, Observe(w, before), WritesUntil(s, n)))
    ensures Faithful(w, WrittenAll(w, rows, s.writesBefore(n)), ExpectAll(w, Observe(w, before), WritesUntil(s, n + 1)))
  {
    hide Faithful, Observe, IsGcm;
    OneMoreAccess(s, n);
    ExpectConcat(w, Observe(w, before), WritesUntil(s, n), s.writesBefore(n));
    WritesKeepFaithful(w, rows, ExpectAll(w, Observe(w, before), WritesUntil(s, n)), s.writesBefore(n));
  }

  lemma InProgressFrom(w: World, s: Surroundings, before: Rows, rows: Rows, todo: seq<RotationRow>, n: nat)
    requires Faithful(w, rows, ExpectAll(w, Observe(w, before), WritesUntil(s, n)))
    requires rows == WrittenAll(w, before, WritesUntil(s, n))
    requires OnTheWay(w, before, rows, WritesUntil(s, n), todo)
    ensures forall dryRun :: InProgress(w, s, before, rows, todo, dryRun, n)
  {
  }

  lemma UntouchedConcat(a: seq<Write>, b: seq<Write>, id: string)
    ensures Untouched(a + b, id) <==> Untouched(a, id) && Untouched(b, id)
  {
    assert Untouched(a + b, id) ==> forall i :: 0 <= i < |b| ==> b[i] == (a + b)[|a| + i];
    assert Untouched(a + b, id) ==> forall i :: 0 <= i < |a| ==> a[i] == (a + b)[i];
  }

  lemma StartOnTheWay(w: World, before: Rows, a: seq<Write>, b: seq<Write>, listed: Rows, rows: Rows,
                      todo: seq<RotationRow>)
    requires listed == WrittenAll(w, before, a) && rows == WrittenAll(w, listed, b)
        && ListsExactly(w, listed, todo, false)
    ensures OnTheWay(w, before, rows, a + b, todo)
  {
    hide WrittenAll, Read, Untouched;
    forall id | id in before && Untouched(a + b, id)
      ensures id in rows && (rows[id].keyVersion == w.ring.current
                             || (rows[id] == before[id] && RotationRow(id, before[id]) in todo))
    {
      UntouchedConcat(a, b, id);
      WritesElsewhere(w, before, a, id);
      WritesElsewhere(w, listed, b, id);
    }
  }

  lemma StartOfRotation(w: World, s: Surroundings, before: Rows, listed: Rows, rows: Rows, todo: seq<RotationRow>)
    requires IsGcm(w.aead) && LegalSurroundings(w, s)
    requires listed == WrittenAll(w, before, s.writesBefore(0)) && rows == WrittenAll(w, listed, s.writesBefore(1))
    requires ListsExactly(w, listed, todo, false)
    ensures forall dryRun :: InProgress(w, s, before, rows, todo, dryRun, 2)
  {
    ObserveIsFaithful(w, before);
    assert ExpectAll(w, Observe(w, before), WritesUntil(s, 0)) == Observe(w, before);
    OneMoreAccess(s, 0);
    OneMoreAccess(s, 1);
    BatchKeepsFaithful(w, s, before, before, 0);
    BatchKeepsFaithful(w, s, before, listed, 1);
    WritesConcat(w, before, s.writesBefore(0), s.writesBefore(1));
    StartOnTheWay(w, before, s.writesBefore(0), s.writesBefore(1), listed, rows, todo);
    hide *;
    InProgressFrom(w, s, before, rows, todo, 2);
  }

  /** After its swap a row that no write touched is at the current version; the others are as they were. */
  lemma SwapOnTheWay(w: World, before: Rows, rows: Rows, past: seq<Write>, now: seq<Write>, todo: seq<RotationRow>,
                     next: Secret)
    requires todo != [] && next.keyVersion == w.ring.current && OnTheWay(w, before, rows, past, todo)
    ensures OnTheWay(w, before, Swapped(WrittenAll(w, rows, now), todo[0], next), past + now, todo[1..])
  {
    hide WrittenAll, Read, Untouched;
    var r, after := todo[0], Swapped(WrittenAll(w, rows, now), todo[0], next);
    assert todo == [r] + todo[1..];
    forall id | id in before && Untouched(past + now, id) && Read(w, id, before[id]).Some?
      ensures id in after && (after[id].keyVersion == w.ring.current
                              || (after[id] == before[id] && RotationRow(id, before[id]) in todo[1..]))
    {
      UntouchedConcat(past, now, id);
      WritesElsewhere(w, rows, now, id);
    }
  }

  lemma SkipOnTheWay(w: World, before: Rows, rows: Rows, past: seq<Write>, todo: seq<RotationRow>)
    requires todo != [] && Read(w, todo[0].id, todo[0].secret).None? && OnTheWay(w, before, rows, past, todo)
    ensures OnTheWay(w, before, rows, past, todo[1..])
  {
  }

  lemma AttemptProgress(w: World, s: Surroundings, before: Rows, rows: Rows, todo: seq<RotationRow>, dryRun: bool,
                        n: nat)
    requires IsGcm(w.aead) && w.ring.current in w.ring.keys && LegalSurroundings(w, s) && todo != []
    requires InProgress(w, s, before, rows, todo, dryRun, n)
    ensures var a := Attempted(w, s, rows, todo[0], dryRun, n);
            InProgress(w, s, before, a.rows, todo[1..], dryRun, a.accesses)
  {
    hide Faithful, OnTheWay, Observe, ExpectAll, WrittenAll, WritesUntil, IsGcm, Read;
    var r := todo[0];
    if Read(w, r.id, r.secret).None? {
      if !dryRun && forall k :: !s.refuses(k) {
        SkipOnTheWay(w, before, rows, WritesUntil(s, n), todo);
      }
    } else if !dryRun {
      var mid, next := WrittenAll(w, rows, s.writesBefore(n)), Reencrypted(w, r, s.nonce(n));
      OneMoreAccess(s, n);
      BatchKeepsFaithful(w, s, before, rows, n);
      SwapKeepsFaithful(w, mid, ExpectAll(w, Observe(w, before), WritesUntil(s, n + 1)), r, s.nonce(n));
      if forall k :: !s.refuses(k) {
        SwapOnTheWay(w, before, rows, WritesUntil(s, n), s.writesBefore(n), todo, next);
      }
    }
  }

  lemma EndOfRotation(w: World, s: Surroundings, before: Rows, rows: Rows, todo: seq<RotationRow>, dryRun: bool, n: nat)
    requires InProgress(w, s, before, rows, todo, dryRun, n) && todo == []
    ensures Faithful(w, rows, ExpectAll(w, Observe(w, before), WritesUntil(s, n)))
    ensures dryRun ==> rows == WrittenAll(w, before, WritesUntil(s, n))
    ensures !dryRun && (forall k :: !s.refuses(k)) ==> CaughtUp(w, before, rows, WritesUntil(s, n))
  {
  }

  // ---------- what the counts mean ----------

  ghost function OfVersion(w: World, rows: Rows, current: bool): set<string> {
    set id | id in rows && ((rows[id].keyVersion == w.ring.current) == current)
  }

  /** Rows at the current version, or not, that can be read. */
  ghost function ReadableRows(w: World, rows: Rows, current: bool): set<string> {
    set id | id in OfVersion(w, rows, current) && Read(w, id, rows[id]).Some?
  }

  ghost function TouchedIds(writes: seq<Write>): set<string> { set i | 0 <= i < |writes| :: writes[i].id }

  /** Each count, told from the two listings: what is scanned, what was already current and readable, and
      that readable outdated rows are rewritten or, at most once for each id that a write touched, in conflict.
      A trial announces them all. */
  ghost predicate CountsRight(w: World, s: Surroundings, before: Rows, counts: Counts, dryRun: bool, n: nat) {
    var first := WrittenAll(w, before, s.writesBefore(0));
    var second := WrittenAll(w, first, s.writesBefore(1));
    && counts.scanned == |OfVersion(w, first, false)| + |OfVersion(w, second, true)|
    && counts.alreadyCurrent == |ReadableRows(w, second, true)|
    && counts.conflicts <= |TouchedIds(WritesUntil(s, n))|
    && (dryRun ==> counts.conflicts == 0)
    && counts.rotated + counts.conflicts <= |ReadableRows(w, first, false)|
    && (dryRun || (forall k :: !s.refuses(k)) ==> counts.rotated + counts.conflicts == |ReadableRows(w, first, false)|)
  }

  ghost function ReadableIds(w: World, list: seq<RotationRow>): set<string> {
    set r | r in list && Read(w, r.id, r.secret).Some? :: r.id
  }

  lemma NothingReadable(w: World, list: seq<RotationRow>)
    ensures |ReadableIds(w, list[..0])| == 0
  {
  }

  lemma OneMoreReadable(w: World, rows: Rows, list: seq<RotationRow>, current: bool, i: nat)
    requires ListsExactly(w, rows, list, current) && i < |list|
    ensures |ReadableIds(w, list[..i + 1])|
         == |ReadableIds(w, list[..i])| + if Read(w, list[i].id, list[i].secret).Some? then 1 else 0
  {
    var extra := if Read(w, list[i].id, list[i].secret).Some? then {list[i].id} else {};
    assert list[..i + 1] == list[..i] + [list[i]];
    assert ReadableIds(w, list[..i + 1]) == ReadableIds(w, list[..i]) + extra;
    assert list[i].id !in ReadableIds(w, list[..i]);
  }

  /** A listed row not yet attempted and touched by no write is still as it was read. */
  ghost predicate Intact(rows: Rows, past: seq<Write>, todo: seq<RotationRow>) {
    && (forall i, j :: 0 <= i < j < |todo| ==> todo[i].id != todo[j].id)
    && forall i :: 0 <= i < |todo| && Untouched(past, todo[i].id) ==>
        todo[i].id in rows && rows[todo[i].id] == todo[i].secret
  }

  /** Rows in conflict so far: each touched by a write, and none to be attempted again. */
  ghost predicate Clashed(clashed: set<string>, past: seq<Write>, todo: seq<RotationRow>) {
    clashed <= TouchedIds(past) && forall i :: 0 <= i < |todo| ==> todo[i].id !in clashed
  }

  lemma StartIntact(w: World, s: Surroundings, before: Rows, listed: Rows, rows: Rows, todo: seq<RotationRow>)
    requires rows == WrittenAll(w, listed, s.writesBefore(1)) && ListsExactly(w, listed, todo, false)
    ensures Intact(rows, WritesUntil(s, 2), todo) && Clashed({}, WritesUntil(s, 2), todo)
  {
    OneMoreAccess(s, 1);
    forall i | 0 <= i < |todo| && Untouched(WritesUntil(s, 2), todo[i].id)
      ensures todo[i].id in rows && rows[todo[i].id] == todo[i].secret
    {
      UntouchedConcat(WritesUntil(s, 1), s.writesBefore(1), todo[i].id);
      WritesElsewhere(w, listed, s.writesBefore(1), todo[i].id);
      assert todo[i] in todo;
    }
  }

  lemma TouchedConcat(a: seq<Write>, b: seq<Write>)
    ensures TouchedIds(a) <= TouchedIds(a + b)
    ensures forall id :: id in TouchedIds(a + b) <==> !Untouched(a + b, id)
  {
    forall i | 0 <= i < |a| ensures a[i].id in TouchedIds(a + b) {
      assert (a + b)[i] == a[i];
    }
  }

  /** One attempt fails exactly on an unreadable or refused row, and is in conflict only if a write
      touched the row. */
  lemma AttemptCounts(w: World, s: Surroundings, rows: Rows, todo: seq<RotationRow>, dryRun: bool, n: nat,
                      clashed: set<string>)
    requires w.ring.current in w.ring.keys && todo != []
    requires Intact(rows, WritesUntil(s, n), todo) && Clashed(clashed, WritesUntil(s, n), todo)
    ensures var a, r := Attempted(w, s, rows, todo[0], dryRun, n), todo[0];
            && Intact(a.rows, WritesUntil(s, a.accesses), todo[1..])
            && Clashed(if a.outcome == Conflict then clashed + {r.id} else clashed,
                       WritesUntil(s, a.accesses), todo[1..])
            && r.id !in clashed
            && (dryRun ==> a.outcome != Conflict)
            && (a.outcome == Failed <==> Read(w, r.id, r.secret).None? || (!dryRun && s.refuses(n)))
  {
    hide Read, IsGcm;
    var r := todo[0];
    if Read(w, r.id, r.secret).Some? && !dryRun {
      OneMoreAccess(s, n);
      var past, now := WritesUntil(s, n), s.writesBefore(n);
      TouchedConcat(past, now);
      var mid := WrittenAll(w, rows, now);
      forall i | 0 <= i < |todo| && Untouched(past + now, todo[i].id)
        ensures todo[i].id in mid && mid[todo[i].id] == todo[i].secret
      {
        UntouchedConcat(past, now, todo[i].id);
        WritesElsewhere(w, rows, now, todo[i].id);
      }
    }
  }

  lemma {:induction false} DistinctIds(list: seq<RotationRow>)
    requires forall i, j :: 0 <= i < j < |list| ==> list[i].id != list[j].id
    ensures |set r | r in list :: r.id| == |list|
  {
    if list != [] {
      var front, last := list[..|list| - 1], list[|list| - 1];
      DistinctIds(front);
      assert list == front + [last];
      assert (set r | r in list :: r.id) == (set r | r in front :: r.id) + {last.id};
      assert last.id !in set r | r in front :: r.id;
    } else {
      assert (set r | r in list :: r.id) == {};
    }
  }

  lemma ListedIds(w: World, rows: Rows, list: seq<RotationRow>, current: bool)
    requires ListsExactly(w, rows, list, current)
    ensures |list| == |OfVersion(w, rows, current)| && ReadableIds(w, list) == ReadableRows(w, rows, current)
  {
    DistinctIds(list);
    var ids := set r | r in list :: r.id;
    forall id ensures id in ids <==> id in OfVersion(w, rows, current) {
      if id in OfVersion(w, rows, current) { assert RotationRow(id, rows[id]) in list; }
    }
    assert ids == OfVersion(w, rows, current);
    forall id ensures id in ReadableIds(w, list) <==> id in ReadableRows(w, rows, current) {
      if id in ReadableRows(w, rows, current) { assert RotationRow(id, rows[id]) in list; }
    }
  }

  lemma SmallerSubset<T>(a: set<T>, b: set<T>)
    requires a <= b
    ensures |a| <= |b|
  {
    assert b == a + (b - a);
  }

  lemma EndOfCounts(w: World, s: Surroundings, before: Rows, outdated: seq<RotationRow>, current: seq<RotationRow>,
                    counts: Counts, dryRun: bool, n: nat, clashed: set<string>)
    requires var first := WrittenAll(w, before, s.writesBefore(0));
             && ListsExactly(w, first, outdated, false)
             && ListsExactly(w, WrittenAll(w, first, s.writesBefore(1)), current, true)
    requires counts.scanned == |outdated| + |current| && counts.alreadyCurrent == |ReadableIds(w, current[..|current|])|
    requires counts.conflicts == |clashed| && Clashed(clashed, WritesUntil(s, n), [])
    requires dryRun ==> counts.conflicts == 0
    requires counts.rotated + counts.conflicts <= |ReadableIds(w, outdated[..|outdated|])|
    requires dryRun || (forall k :: !s.refuses(k)) ==>
        counts.rotated + counts.conflicts == |ReadableIds(w, outdated[..|outdated|])|
    ensures CountsRight(w, s, before, counts, dryRun, n)
  {
    var first := WrittenAll(w, before, s.writesBefore(0));
    ListedIds(w, first, outdated, false);
    ListedIds(w, WrittenAll(w, first, s.writesBefore(1)), current, true);
    assert outdated[..|outdated|] == outdated && current[..|current|] == current;
    SmallerSubset(clashed, TouchedIds(WritesUntil(s, n)));
  }

  // ---------- which rows were rewritten, and which were lost to a write ----------

  /** One update as it reached the table: the row as it was listed, the table just before and just after. */
  datatype Exchange = Exchange(row: RotationRow, before: Rows, after: Rows)

  /** The table still holds the very bytes that were read. */
  predicate Holds(rows: Rows, r: RotationRow) { r.id in rows && rows[r.id] == r.secret }

  /** An update that the database accepts, on a row that still holds what was read, puts the same plaintext
      there at the current version; any other changes nothing. No other row ever changes. */
  ghost predicate IsExchange(w: World, x: Exchange, refused: bool) {
    var id := x.row.id;
    if !refused && Holds(x.before, x.row) then
      && x.after.Keys == x.before.Keys && (forall k :: k in x.before && k != id ==> x.after[k] == x.before[k])
      && x.after[id].keyVersion == w.ring.current
      && Read(w, id, x.after[id]).Some? && Read(w, id, x.after[id]) == Read(w, id, x.row.secret)
    else x.after == x.before
  }

  function EndOf(start: Rows, trace: seq<Exchange>): Rows {
    if trace == [] then start else trace[|trace| - 1].after
  }

  /** The updates one after the other, with the ordinary writes that land before each of them. */
  ghost predicate IsTrace(w: World, s: Surroundings, start: Rows, trace: seq<Exchange>) {
    trace == [] ||
    var front, last := trace[..|trace| - 1], trace[|trace| - 1];
    && IsTrace(w, s, start, front)
    && last.before == WrittenAll(w, EndOf(start, front), s.writesBefore(|front| + 2))
    && IsExchange(w, last, s.refuses(|front| + 2))
  }

  /** The updates are those of the readable rows of a list, each once. */
  ghost predicate Covers(w: World, list: seq<RotationRow>, trace: seq<Exchange>) {
    && (forall j, k :: 0 <= j < k < |trace| ==> trace[j].row.id != trace[k].row.id)
    && (forall k :: 0 <= k < |trace| ==> trace[k].row in list && Read(w, trace[k].row.id, trace[k].row.secret).Some?)
    && (forall r :: r in list && Read(w, r.id, r.secret).Some? ==> exists k :: 0 <= k < |trace| && trace[k].row == r)
  }

  /** Number of accepted updates of rows that still held what was read. */
  function Won(s: Surroundings, trace: seq<Exchange>): nat {
    if trace == [] then 0
    else
      var front, last := trace[..|trace| - 1], trace[|trace| - 1];
      Won(s, front) + if !s.refuses(|front| + 2) && Holds(last.before, last.row) then 1 else 0
  }

  /** Number of accepted updates of rows that a write had changed, or removed, since they were read. */
  function Lost(s: Surroundings, trace: seq<Exchange>): nat {
    if trace == [] then 0
    else
      var front, last := trace[..|trace| - 1], trace[|trace| - 1];
      Lost(s, front) + if !s.refuses(|front| + 2) && !Holds(last.before, last.row) then 1 else 0
  }

  /** The counts of a rotation that is no trial, told from what happened to the table: rotated are exactly the
      rows that were rewritten, in conflict exactly those that a write had changed when their turn came. */
  ghost predicate IsTold(w: World, s: Surroundings, start: Rows, list: seq<RotationRow>, trace: seq<Exchange>,
                         end: Rows, rotated: nat, conflicts: nat, n: nat)
  {
    && IsTrace(w, s, start, trace) && end == EndOf(start, trace) && Covers(w, list, trace)
    && rotated == Won(s, trace) && conflicts == Lost(s, trace) && n == |trace| + 2
  }

  ghost predicate CountsExact(w: World, s: Surroundings, before: Rows, after: Rows, counts: Counts, n: nat) {
    var first := WrittenAll(w, before, s.writesBefore(0));
    exists list, trace ::
      && ListsExactly(w, first, list, false)
      && IsTold(w, s, WrittenAll(w, first, s.writesBefore(1)), list, trace, after, counts.rotated, counts.conflicts, n)
  }

  lemma RewrittenReadsTheSame(w: World, r: RotationRow, nonce: Bytes)
    requires IsGcm(w.aead) && w.ring.current in w.ring.keys && |nonce| == NONCE_BYTES
    requires Read(w, r.id, r.secret).Some?
    ensures Read(w, r.id, Reencrypted(w, r, nonce)) == Read(w, r.id, r.secret)
    ensures Reencrypted(w, r, nonce).keyVersion == w.ring.current
  {
    ReadIsNotEmpty(w, r.id, r.secret);
    RoundTripsUnlessEmpty(w.aead, w.ring, w.ring.current, Read(w, r.id, r.secret).value, w.aadOf(r.id), nonce);
  }

  /** The update of one row, added to the trace. */
  function Longer(w: World, s: Surroundings, rows: Rows, r: RotationRow, n: nat, trace: seq<Exchange>): seq<Exchange>
    requires w.ring.current in w.ring.keys
  {
    if Read(w, r.id, r.secret).None? then trace
    else trace + [Exchange(r, WrittenAll(w, rows, s.writesBefore(n)), Attempted(w, s, rows, r, false, n).rows)]
  }

  predicate EachOnce(list: seq<RotationRow>) {
    forall j, k :: 0 <= j < k < |list| ==> list[j].id != list[k].id
  }

  lemma CoversOneMore(w: World, list: seq<RotationRow>, i: nat, trace: seq<Exchange>, before: Rows, after: Rows)
    requires i < |list| && Covers(w, list[..i], trace)
    requires EachOnce(list)
    ensures var more := if Read(w, list[i].id, list[i].secret).None? then trace
                        else trace + [Exchange(list[i], before, after)];
            Covers(w, list[..i + 1], more)
  {
    hide Read;
    assert list[..i + 1] == list[..i] + [list[i]];
    var more := trace + [Exchange(list[i], before, after)];
    assert forall k :: 0 <= k < |trace| ==> more[k] == trace[k];
    assert more[|trace|].row == list[i];
  }

  lemma OneMoreExchange(w: World, s: Surroundings, start: Rows, trace: seq<Exchange>, x: Exchange)
    requires IsTrace(w, s, start, trace) && IsExchange(w, x, s.refuses(|trace| + 2))
    requires x.before == WrittenAll(w, EndOf(start, trace), s.writesBefore(|trace| + 2))
    ensures IsTrace(w, s, start, trace + [x]) && EndOf(start, trace + [x]) == x.after
    ensures var accepted, held := !s.refuses(|trace| + 2), Holds(x.before, x.row);
            && Won(s, trace + [x]) == Won(s, trace) + (if accepted && held then 1 else 0)
            && Lost(s, trace + [x]) == Lost(s, trace) + (if accepted && !held then 1 else 0)
  {
    assert (trace + [x])[..|trace|] == trace;
    hide IsExchange, Holds, WrittenAll;
  }

  /** What an attempt does to the table is one exchange, and its outcome tells which kind. */
  lemma AttemptIsExchange(w: World, s: Surroundings, rows: Rows, r: RotationRow, n: nat)
    requires IsGcm(w.aead) && w.ring.current in w.ring.keys && LegalSurroundings(w, s)
    requires Read(w, r.id, r.secret).Some?
    ensures var a, mid := Attempted(w, s, rows, r, false, n), WrittenAll(w, rows, s.writesBefore(n));
            && IsExchange(w, Exchange(r, mid, a.rows), s.refuses(n)) && a.accesses == n + 1
            && (a.outcome == Rotated <==> !s.refuses(n) && Holds(mid, r))
            && (a.outcome == Conflict <==> !s.refuses(n) && !Holds(mid, r))
  {
    RewrittenReadsTheSame(w, r, s.nonce(n));
    hide Read, WrittenAll, IsGcm, LegalSurroundings, Reencrypted;
  }

  lemma UnreadableIsFailed(w: World, s: Surroundings, rows: Rows, r: RotationRow, n: nat)
    requires w.ring.current in w.ring.keys && Read(w, r.id, r.secret).None?
    ensures Attempted(w, s, rows, r, false, n) == Attempt(rows, Failed, n)
  {
    hide Read;
  }

  /** One more row with its exchange, whose kind the counts take up. */
  lemma TellExchange(w: World, s: Surroundings, start: Rows, list: seq<RotationRow>, trace: seq<Exchange>, x: Exchange,
                     more: seq<RotationRow>, rows: Rows, rotated: nat, conflicts: nat, n: nat)
    requires IsTold(w, s, start, list, trace, rows, rotated, conflicts, n)
    requires Covers(w, more, trace + [x]) && IsExchange(w, x, s.refuses(n))
    requires x.before == WrittenAll(w, rows, s.writesBefore(n))
    ensures var accepted, held := !s.refuses(n), Holds(x.before, x.row);
            IsTold(w, s, start, more, trace + [x], x.after, rotated + (if accepted && held then 1 else 0),
                   conflicts + (if accepted && !held then 1 else 0), n + 1)
  {
    hide Covers, IsExchange, Holds, Won, Lost, IsTrace, EndOf, WrittenAll;
    OneMoreExchange(w, s, start, trace, x);
  }

  /** One more row that cannot be read. */
  lemma TellNothing(w: World, s: Surroundings, start: Rows, list: seq<RotationRow>, trace: seq<Exchange>,
                    more: seq<RotationRow>, rows: Rows, rotated: nat, conflicts: nat, n: nat)
    requires IsTold(w, s, start, list, trace, rows, rotated, conflicts, n) && Covers(w, more, trace)
    ensures IsTold(w, s, start, more, trace, rows, rotated, conflicts, n)
  {
  }

  lemma ToldCoversOneMore(w: World, s: Surroundings, start: Rows, list: seq<RotationRow>, i: nat, trace: seq<Exchange>,
                          before: Rows, after: Rows, end: Rows, rotated: nat, conflicts: nat, n: nat)
    requires i < |list| && EachOnce(list) && IsTold(w, s, start, list[..i], trace, end, rotated, conflicts, n)
    ensures var more := if Read(w, list[i].id, list[i].secret).None? then trace
                        else trace + [Exchange(list[i], before, after)];
            Covers(w, list[..i + 1], more)
  {
    hide Covers, Read, IsTrace, EndOf, EachOnce, Won, Lost;
    CoversOneMore(w, list, i, trace, before, after);
  }

  lemma ToldOneMore(w: World, s: Surroundings, start: Rows, list: seq<RotationRow>, i: nat, trace: seq<Exchange>,
                    rows: Rows, rotated: nat, conflicts: nat, n: nat)
    requires IsGcm(w.aead) && w.ring.current in w.ring.keys && LegalSurroundings(w, s)
    requires i < |list| && EachOnce(list)
    requires IsTold(w, s, start, list[..i], trace, rows, rotated, conflicts, n)
    ensures var a := Attempted(w, s, rows, list[i], false, n);
            IsTold(w, s, start, list[..i + 1], Longer(w, s, rows, list[i], n, trace), a.rows,
                   rotated + (if a.outcome == Rotated then 1 else 0),
                   conflicts + (if a.outcome == Conflict then 1 else 0), a.accesses)
  {
    var r := list[i];
    hide EachOnce, Read, WrittenAll, IsGcm, LegalSurroundings, Covers, IsExchange, Attempted, Holds, IsTold;
    var a, mid := Attempted(w, s, rows, r, false, n), WrittenAll(w, rows, s.writesBefore(n));
    ToldCoversOneMore(w, s, start, list, i, trace, mid, a.rows, rows, rotated, conflicts, n);
    if Read(w, r.id, r.secret).None? {
      UnreadableIsFailed(w, s, rows, r, n);
      assert Longer(w, s, rows, r, n, trace) == trace;
      TellNothing(w, s, start, list[..i], trace, list[..i + 1], rows, rotated, conflicts, n);
    } else {
      AttemptIsExchange(w, s, rows, r, n);
      assert Longer(w, s, rows, r, n, trace) == trace + [Exchange(r, mid, a.rows)];
      var won, lost := if a.outcome == Rotated then 1 else 0, if a.outcome == Conflict then 1 else 0;
      assert won == (if !s.refuses(n) && Holds(mid, r) then 1 else 0);
      assert lost == (if !s.refuses(n) && !Holds(mid, r) then 1 else 0);
      TellExchange(w, s, start, list[..i], trace, Exchange(r, mid, a.rows), list[..i + 1], rows, rotated, conflicts, n);
      assert IsTold(w, s, start, list[..i + 1], trace + [Exchange(r, mid, a.rows)], a.rows,
          rotated + won, conflicts + lost, n + 1);
    }
  }

  lemma NothingTold(w: World, s: Surroundings, start: Rows, list: seq<RotationRow>)
    ensures IsTold(w, s, start, list[..0], [], start, 0, 0, 2)
  {
  }

  lemma ListedOnce(w: World, rows: Rows, list: seq<RotationRow>)
    requires ListsExactly(w, rows, list, false)
    ensures EachOnce(list)
  {
  }

  lemma EndOfTrace(w: World, s: Surroundings, before: Rows, list: seq<RotationRow>, trace: seq<Exchange>, end: Rows,
                   counts: Counts, n: nat)
    requires ListsExactly(w, WrittenAll(w, before, s.writesBefore(0)), list, false)
    requires IsTold(w, s, WrittenAll(w, WrittenAll(w, before, s.writesBefore(0)), s.writesBefore(1)), list[..|list|],
                    trace, end, counts.rotated, counts.conflicts, n)
    ensures CountsExact(w, s, before, end, counts, n)
  {
    assert list[..|list|] == list;
  }

  // ---------- the table, and its rotation ----------

  class Table {
    var rows: Rows

    /** Ordinary writes by other instances. */
    method Interfere(w: World, s: Surroundings, k: nat)
      modifies this
      ensures rows == WrittenAll(w, old(rows), s.writesBefore(k))
    {
      var writes := s.writesBefore(k);
      for i := 0 to |writes|
        invariant rows == WrittenAll(w, old(rows), writes[..i])
      {
        assert writes[..i + 1][..i] == writes[..i];
        rows := Written(w, rows, writes[i]);
      }
      assert writes[..|writes|] == writes;
    }

    /** Rows whose version is, or is not, the current one. */
    method List(w: World, current: bool) returns (list: seq<RotationRow>)
      ensures ListsExactly(w, rows, list, current)
    {
      list := [];
      var left := rows.Keys;
      while left != {}
        invariant left <= rows.Keys
        invariant forall i, j :: 0 <= i < j < |list| ==> list[i].id != list[j].id
        invariant forall r :: r in list ==> r.id in rows && r.id !in left && rows[r.id] == r.secret
                                            && ((r.secret.keyVersion == w.ring.current) == current)
        invariant forall id :: id in rows && id !in left && ((rows[id].keyVersion == w.ring.current) == current) ==>
            RotationRow(id, rows[id]) in list
        decreases left
      {
        var id :| id in left;
        left := left - {id};
        if (rows[id].keyVersion == w.ring.current) == current {
          list := list + [RotationRow(id, rows[id])];
        }
      }
    }

    method Swap(r: RotationRow, next: Secret) returns (swapped: bool)
      modifies this
      ensures rows == Swapped(old(rows), r, next)
      ensures swapped <==> r.id in old(rows) && old(rows)[r.id] == r.secret
    {
      swapped := r.id in rows && rows[r.id] == r.secret;
      if swapped {
        rows := rows[r.id := next];
      }
    }

    /** Decrypts, re-encrypts and, unless this is a trial, swaps one outdated row. */
    method RotateOne(w: World, s: Surroundings, r: RotationRow, dryRun: bool, n: nat)
      returns (outcome: Outcome, n': nat)
      requires w.ring.current in w.ring.keys
      modifies this
      ensures var a := Attempted(w, s, old(rows), r, dryRun, n);
              rows == a.rows && outcome == a.outcome && n' == a.accesses
    {
      if Read(w, r.id, r.secret).None? {
        return Failed, n;
      }
      if dryRun {
        return Rotated, n;
      }
      var next := Reencrypted(w, r, s.nonce(n));
      Interfere(w, s, n);
      if s.refuses(n) {
        return Failed, n + 1;
      }
      var swapped := Swap(r, next);
      return if swapped then Rotated else Conflict, n + 1;
    }

    /** Rotates the whole table. `accesses` tells how many accesses, hence which writes, took place. */
    method RotateRows(w: World, s: Surroundings, dryRun: bool) returns (counts: Counts, ghost accesses: nat)
      requires IsGcm(w.aead) && w.ring.current in w.ring.keys && LegalSurroundings(w, s)
      modifies this
      ensures Faithful(w, rows, ExpectAll(w, Observe(w, old(rows)), WritesUntil(s, accesses)))
      ensures dryRun ==> rows == WrittenAll(w, old(rows), WritesUntil(s, accesses))
      ensures counts.scanned == counts.rotated + counts.alreadyCurrent + counts.failed + counts.conflicts
      ensures !dryRun && (forall k :: !s.refuses(k)) ==> CaughtUp(w, old(rows), rows, WritesUntil(s, accesses))
      ensures Settled(w, WrittenAll(w, old(rows), s.writesBefore(0))) ==> counts.rotated == 0
      ensures CountsRight(w, s, old(rows), counts, dryRun, accesses)
      ensures !dryRun ==> CountsExact(w, s, old(rows), rows, counts, accesses)
    {
      hide *;
      ghost var before := rows;
      var n := 2;
      Interfere(w, s, 0);
      var outdated := List(w, false);
      ghost var listed := rows;
      Interfere(w, s, 1);
      var current := List(w, true);
      ghost var second := rows;
      var checked, broken := 0, 0;
      NothingReadable(w, current);
      for i := 0 to |current|
        invariant checked + broken == i && rows == second
        invariant checked == |ReadableIds(w, current[..i])|
      {
        OneMoreReadable(w, rows, current, true, i);
        if Read(w, current[i].id, current[i].secret).Some? {
          checked := checked + 1;
        } else {
          broken := broken + 1;
        }
      }
      StartOfRotation(w, s, before, listed, rows, outdated);
      StartIntact(w, s, before, listed, rows, outdated);
      NothingReadable(w, outdated);
      var rotated, failed, conflicts := 0, 0, 0;
      ghost var clashed: set<string> := {};
      ghost var trace: seq<Exchange> := [];
      NothingTold(w, s, rows, outdated);
      for i := 0 to |outdated|
        invariant rotated + failed + conflicts == i
        invariant !dryRun ==> IsTold(w, s, second, outdated[..i], trace, rows, rotated, conflicts, n)
        invariant Intact(rows, WritesUntil(s, n), outdated[i..])
        invariant conflicts == |clashed| && Clashed(clashed, WritesUntil(s, n), outdated[i..])
        invariant dryRun ==> conflicts == 0
        invariant rotated + conflicts <= |ReadableIds(w, outdated[..i])|
        invariant dryRun || (forall k :: !s.refuses(k)) ==> rotated + conflicts == |ReadableIds(w, outdated[..i])|
        invariant InProgress(w, s, before, rows, outdated[i..], dryRun, n)
        invariant Settled(w, listed) ==> rotated == 0
      {
        AttemptProgress(w, s, before, rows, outdated[i..], dryRun, n);
        SettledRowFails(w, s, listed, rows, outdated, i, dryRun, n);
        OneMoreReadable(w, listed, outdated, false, i);
        AttemptCounts(w, s, rows, outdated[i..], dryRun, n, clashed);
        assert outdated[i..][0] == outdated[i] && outdated[i..][1..] == outdated[i + 1..];
        if !dryRun {
          ListedOnce(w, listed, outdated);
          ToldOneMore(w, s, second, outdated, i, trace, rows, rotated, conflicts, n);
          trace := Longer(w, s, rows, outdated[i], n, trace);
        }
        var outcome;
        outcome, n := RotateOne(w, s, outdated[i], dryRun, n);
        match outcome
        case Rotated => rotated := rotated + 1;
        case Failed => failed := failed + 1;
        case Conflict =>
          conflicts := conflicts + 1;
          clashed := clashed + {outdated[i].id};
      }
      accesses := n;
      EndOfRotation(w, s, before, rows, outdated[|outdated|..], dryRun, n);
      counts := Counts(|outdated| + |current|, rotated, checked, broken + failed, conflicts);
      EndOfCounts(w, s, before, outdated, current, counts, dryRun, n, clashed);
      if !dryRun {
        EndOfTrace(w, s, before, outdated, trace, rows, counts, n);
      }
    }
  }

  /** A table that was caught up without any write in between is settled. */
  lemma CaughtUpIsSettled(w: World, before: Rows, rows: Rows)
    requires Faithful(w, rows, Observe(w, before)) && CaughtUp(w, before, rows, [])
    ensures Settled(w, rows)
  {
  }

  lemma {:induction false} QuietWrites(s: Surroundings, n: nat)
    requires forall k :: s.writesBefore(k) == []
    ensures WritesUntil(s, n) == []
  {
    if n > 0 {
      QuietWrites(s, n - 1);
    }
  }

  lemma FaithfulChain(w: World, a: Rows, b: Rows, c: Rows)
    requires Faithful(w, b, Observe(w, a)) && Faithful(w, c, Observe(w, b))
    ensures Faithful(w, c, Observe(w, a))
  {
  }

  /** With nobody else writing, a second rotation finds nothing to do, and both leave every row
      readable as it was. */
  method RotateTwice(table: Table, w: World, s: Surroundings) returns (first: Counts, second: Counts)
    requires IsGcm(w.aead) && w.ring.current in w.ring.keys && LegalSurroundings(w, s)
    requires (forall k :: s.writesBefore(k) == []) && (forall k :: !s.refuses(k))
    modifies table
    ensures Faithful(w, table.rows, Observe(w, old(table.rows))) && Settled(w, table.rows)
    ensures first.rotated == |ReadableRows(w, old(table.rows), false)| && first.conflicts == 0
    ensures second.rotated == 0 && second.conflicts == 0
  {
    hide IsGcm, LegalSurroundings, Faithful, CaughtUp, Settled, Observe, ReadableRows, OfVersion, CountsExact;
    ghost var n, m;
    first, n := table.RotateRows(w, s, false);
    QuietWrites(s, n);
    ghost var mid := table.rows;
    CaughtUpIsSettled(w, old(table.rows), mid);
    second, m := table.RotateRows(w, s, false);
    QuietWrites(s, m);
    CaughtUpIsSettled(w, mid, table.rows);
    FaithfulChain(w, old(table.rows), mid, table.rows);
  }

  // ---------- the command ----------

  datatype RotationError = BadRing(error: RingError) | OldRowsWithoutOldKeys

  /** The ring holds the keys of the settings and encrypts with the current one. */
  ghost predicate RingOf(s: Settings, ring: Ring) {
    && ring.current == s.current.version && ring.current in ring.keys
    && forall k :: k in AllKeys(s) ==> k.version in ring.keys && ring.keys[k.version] == k.key
  }

  ghost predicate HasOutdated(rows: Rows, version: int) { exists id :: id in rows && rows[id].keyVersion != version }

  ghost predicate SomeOutdated(s: Settings, llm: Rows, tokens: Rows) {
    HasOutdated(llm, s.current.version) || HasOutdated(tokens, s.current.version)
  }

  lemma OutdatedMeansListed(w: World, rows: Rows, list: seq<RotationRow>)
    requires ListsExactly(w, rows, list, false)
    ensures list != [] <==> HasOutdated(rows, w.ring.current)
  {
    if list != [] {
      assert list[0] in list;
    }
  }

  /** Rows still hold what ordinary writes put there, a trial changes nothing of its own, and the counts are right. */
  ghost predicate RotatedFaithfully(w: World, s: Surroundings, before: Rows, after: Rows, counts: Counts,
                                    dryRun: bool, n: nat)
  {
    && Faithful(w, after, ExpectAll(w, Observe(w, before), WritesUntil(s, n)))
    && (dryRun ==> after == WrittenAll(w, before, WritesUntil(s, n)))
    && (!dryRun && (forall k :: !s.refuses(k)) ==> CaughtUp(w, before, after, WritesUntil(s, n)))
    && CountsRight(w, s, before, counts, dryRun, n)
    && (!dryRun ==> CountsExact(w, s, before, after, counts, n))
  }

  /** The command: both tables in turn, or a refusal that writes nothing. */
  method RotateEncryptionKey(settings: Settings, aead: Aead, llmAad: string -> Bytes, tokenAad: string -> Bytes,
                             llm: Table, tokens: Table, dryRun: bool, s: Surroundings, t: Surroundings)
    returns (r: Result<(Counts, Counts), RotationError>, ghost n: nat, ghost m: nat)
    requires IsGcm(aead) && llm != tokens
    requires forall ring :: RingOf(settings, ring) ==>
        LegalSurroundings(World(aead, ring, llmAad), s) && LegalSurroundings(World(aead, ring, tokenAad), t)
    modifies llm, tokens
    ensures r.Err? ==> llm.rows == old(llm.rows) && tokens.rows == old(tokens.rows)
    ensures r.Err? <==>
        || !ValidSettings(settings)
        || (settings.previous == [] && SomeOutdated(settings, old(llm.rows), old(tokens.rows)))
    ensures r.Ok? ==> exists ring :: (
        && RingOf(settings, ring)
        && RotatedFaithfully(World(aead, ring, llmAad), s, old(llm.rows), llm.rows, r.value.0, dryRun, n)
        && RotatedFaithfully(World(aead, ring, tokenAad), t, old(tokens.rows), tokens.rows, r.value.1, dryRun, m))
  {
    hide IsGcm, LegalSurroundings, Faithful, CaughtUp, Settled, Observe, ValidSettings, CountsRight, CountsExact;
    n, m := 0, 0;
    var ring := CreateKeyRing(settings);
    if ring.Err? {
      return Err(BadRing(ring.error)), n, m;
    }
    var w, v := World(aead, ring.value, llmAad), World(aead, ring.value, tokenAad);
    assert RingOf(settings, ring.value);
    if settings.previous == [] {
      var a := llm.List(w, false);
      var b := tokens.List(v, false);
      OutdatedMeansListed(w, llm.rows, a);
      OutdatedMeansListed(v, tokens.rows, b);
      if a != [] || b != [] {
        return Err(OldRowsWithoutOldKeys), n, m;
      }
    }
    var x, y;
    x, n := llm.RotateRows(w, s, dryRun);
    y, m := tokens.RotateRows(v, t, dryRun);
    r := Ok((x, y));
  }
}
