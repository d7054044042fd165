/**
 Draining a Valkey consumer group's pending entries after a restart, then reading new ones.
 The RPC responder moves a cursor over its backlog; the telemetry consumer re-reads the
 backlog from "0" and relies on acks to shrink it.
 */
module StreamDrain {

  /** An entry handed to the handler, and whether it was flagged as redelivered. */
  datatype Seen = Seen(id: nat, redelivered: bool)

  /**
   `pel` is the group's list of this consumer's unacked entries in id order; `unread` the new
   entries in id order; `seen` everything dispatched so far, in order.
   */
  datatype Drain = Drain(pel: seq<nat>, unread: seq<nat>, pending: bool, cursor: nat, seen: seq<Seen>)

  /**
   One blocking read. The server returns up to `1 + extra` entries, of which at most `arrived`
   new ones; before it, the acks of `acked` took effect; during it, the acks of `lost` fail.
   */
  datatype Turn = Failed | Served(extra: nat, arrived: nat, acked: set<nat>, lost: set<nat>)

  predicate Ascending(s: seq<nat>) {
    (forall i :: 0 <= i < |s| ==> s[i] > 0) && forall i, j :: 0 <= i < j < |s| ==> s[i] < s[j]
  }

  function Start(backlog: seq<nat>, unread: seq<nat>): Drain {
    Drain(backlog, unread, true, 0, [])
  }

  /** The entries with an id above `cursor`. */
  function After(s: seq<nat>, cursor: nat): seq<nat> {
    if s == [] then [] else if s[0] > cursor then [s[0]] + After(s[1..], cursor) else After(s[1..], cursor)
  }

  function Without(s: seq<nat>, gone: set<nat>): seq<nat> {
    if s == [] then [] else if s[0] in gone then Without(s[1..], gone) else [s[0]] + Without(s[1..], gone)
  }

  function ToSet(s: seq<nat>): set<nat> {
    set id | id in s
  }

  function FirstOf(s: seq<nat>, n: nat): (r: seq<nat>)
    ensures r <= s && |r| == if n < |s| then n else |s|
  {
    if n < |s| then s[..n] else s
  }

  function Flag(ids: seq<nat>, redelivered: bool): (r: seq<Seen>)
    ensures |r| == |ids| && forall i :: 0 <= i < |ids| ==> r[i] == Seen(ids[i], redelivered)
  {
    seq(|ids|, i requires 0 <= i < |ids| => Seen(ids[i], redelivered))
  }

  ghost predicate WasSeen(d: Drain, id: nat) {
    exists i :: 0 <= i < |d.seen| && d.seen[i].id == id
  }

  /** Reading ">": new entries only. */
  function ReadNew(d: Drain, t: Turn): Drain
    requires t.Served?
  {
    var batch := FirstOf(d.unread, if t.extra + 1 < t.arrived then t.extra + 1 else t.arrived);
    d.(unread := d.unread[|batch|..], seen := d.seen + Flag(batch, false))
  }

  // ---- the RPC responder's cursor ----------------------------------------------

  /** Handlers run on their own goroutines: an entry is acked, if at all, after it was dispatched. */
  ghost predicate AcksAreSeen(d: Drain, t: Turn) {
    t.Served? ==> forall id :: id in t.acked ==> WasSeen(d, id)
  }

  function CursorTurn(d: Drain, t: Turn): Drain {
    if t.Failed? then d
    else
      var pel := Without(d.pel, t.acked);
      if d.pending then
        var batch := FirstOf(After(pel, d.cursor), t.extra + 1);
        if batch == [] then d.(pel := pel, pending := false)
        else d.(pel := pel, cursor := batch[|batch| - 1], seen := d.seen + Flag(batch, true))
      else ReadNew(d.(pel := pel), t)
  }

  /** The state after a script of reads, each with its acks. */
  function CursorRun(d: Drain, script: seq<Turn>): Drain
    decreases |script|
  {
    if script == [] then d else CursorRun(CursorTurn(d, script[0]), script[1..])
  }

  ghost predicate CursorScript(d: Drain, script: seq<Turn>)
    decreases |script|
  {
    script == [] || (AcksAreSeen(d, script[0]) && CursorScript(CursorTurn(d, script[0]), script[1..]))
  }

  /** `seen` is the first `k` of the backlog, then the first `m` new entries, flags included. */
  ghost predicate Visited(seen: seq<Seen>, backlog: seq<nat>, unread: seq<nat>, k: nat, m: nat) {
    k <= |backlog| && m <= |unread| && seen == Flag(backlog[..k], true) + Flag(unread[..m], false)
  }

  ghost predicate CursorInv(d: Drain, backlog: seq<nat>, unread: seq<nat>, k: nat, m: nat) {
    k <= |backlog| && m <= |unread| && Visited(d.seen, backlog, unread, k, m) && d.unread == unread[m..] &&
    d.cursor == (if k == 0 then 0 else backlog[k - 1]) &&
    (d.pending ==> m == 0 && After(d.pel, d.cursor) == backlog[k..]) &&
    (!d.pending ==> k == |backlog|)
  }

  lemma {:induction false} AfterWithout(s: seq<nat>, gone: set<nat>, cursor: nat)
    requires forall id :: id in gone ==> id <= cursor
    ensures After(Without(s, gone), cursor) == After(s, cursor)
  {
    if s != [] {
      AfterWithout(s[1..], gone, cursor);
      if s[0] !in gone {
        assert Without(s, gone)[1..] == Without(s[1..], gone);
      }
    }
  }

  lemma {:induction false} AfterAfter(s: seq<nat>, low: nat, high: nat)
    requires low <= high
    ensures After(After(s, low), high) == After(s, high)
  {
    if s != [] {
      AfterAfter(s[1..], low, high);
      if s[0] > low {
        assert After(s, low)[1..] == After(s[1..], low);
      }
    }
  }

  lemma {:induction false} AfterAscending(s: seq<nat>, k: nat)
    requires Ascending(s) && k <= |s|
    ensures After(s, if k == 0 then 0 else s[k - 1]) == s[k..]
    decreases |s|
  {
    if s == [] {
    } else if k == 0 {
      AfterAscending(s[1..], 0);
      assert s == [s[0]] + s[1..];
    } else if k == 1 {
      AllAfter(s[1..], s[0]);
    } else {
      AfterAscending(s[1..], k - 1);
      assert s[1..][k - 1..] == s[k..];
    }
  }

  lemma {:induction false} AllAfter(s: seq<nat>, cursor: nat)
    requires forall i :: 0 <= i < |s| ==> s[i] > cursor
    ensures After(s, cursor) == s
  {
    if s != [] {
      AllAfter(s[1..], cursor);
      assert s == [s[0]] + s[1..];
    }
  }

  lemma SeenIsBehindCursor(d: Drain, backlog: seq<nat>, unread: seq<nat>, k: nat, id: nat)
    requires CursorInv(d, backlog, unread, k, 0) && Ascending(backlog) && d.pending && WasSeen(d, id)
    ensures id <= d.cursor
  {
    var i :| 0 <= i < |d.seen| && d.seen[i].id == id;
    assert d.seen[i] == Seen(backlog[i], true);
    assert i < k && (i == k - 1 || backlog[i] < backlog[k - 1]);
  }

  lemma PrefixGrows(backlog: seq<nat>, k: nat, batch: seq<nat>)
    requires k <= |backlog| && batch <= backlog[k..]
    ensures k + |batch| <= |backlog| && backlog[..k] + batch == backlog[..k + |batch|]
    ensures batch != [] ==> batch[|batch| - 1] == backlog[k + |batch| - 1]
  {
    assert batch == backlog[k..][..|batch|];
  }

  lemma VisitsBacklog(seen: seq<Seen>, backlog: seq<nat>, unread: seq<nat>, k: nat, batch: seq<nat>)
    requires Visited(seen, backlog, unread, k, 0) && batch <= backlog[k..]
    ensures k + |batch| <= |backlog| && Visited(seen + Flag(batch, true), backlog, unread, k + |batch|, 0)
  {
    PrefixGrows(backlog, k, batch);
    FlagConcat(backlog[..k], batch, true);
    assert Flag(unread[..0], false) == [];
  }

  lemma VisitsMore(seen: seq<Seen>, backlog: seq<nat>, unread: seq<nat>, m: nat, batch: seq<nat>)
    requires Visited(seen, backlog, unread, |backlog|, m) && batch <= unread[m..]
    ensures m + |batch| <= |unread| && Visited(seen + Flag(batch, false), backlog, unread, |backlog|, m + |batch|)
  {
    hide Flag;
    PrefixGrows(unread, m, batch);
    FlagConcat(unread[..m], batch, false);
  }

  lemma VisitsNew(d: Drain, t: Turn, backlog: seq<nat>, unread: seq<nat>, m: nat) returns (m': nat)
    requires t.Served? && m <= |unread| && Visited(d.seen, backlog, unread, |backlog|, m) && d.unread == unread[m..]
    ensures m' <= |unread| && Visited(ReadNew(d, t).seen, backlog, unread, |backlog|, m')
    ensures ReadNew(d, t).unread == unread[m'..]
  {
    hide Visited, Flag;
    var batch := FirstOf(d.unread, if t.extra + 1 < t.arrived then t.extra + 1 else t.arrived);
    VisitsMore(d.seen, backlog, unread, m, batch);
    m' := m + |batch|;
    assert unread[m..][|batch|..] == unread[m'..];
  }

  /** A non-empty batch moves the cursor to the end of the stretch it visited. */
  lemma CursorAdvances(d: Drain, t: Turn, backlog: seq<nat>, unread: seq<nat>, k: nat)
    requires CursorInv(d, backlog, unread, k, 0) && Ascending(backlog) && AcksAreSeen(d, t) && t.Served? && d.pending
    ensures After(Without(d.pel, t.acked), d.cursor) == backlog[k..]
    ensures forall k' :: k < k' <= |backlog| ==> After(Without(d.pel, t.acked), backlog[k' - 1]) == backlog[k'..]
  {
    forall id | id in t.acked ensures id <= d.cursor {
      SeenIsBehindCursor(d, backlog, unread, k, id);
    }
    AfterWithout(d.pel, t.acked, d.cursor);
    forall k' | k < k' <= |backlog|
      ensures After(Without(d.pel, t.acked), backlog[k' - 1]) == backlog[k'..]
    {
      AfterAfter(Without(d.pel, t.acked), d.cursor, backlog[k' - 1]);
      AfterTail(backlog, k, k');
    }
  }

  /** One turn of the cursor drain visits the next stretch of the backlog, or new entries after it. */
  lemma CursorTurnKeepsInv(d: Drain, t: Turn, backlog: seq<nat>, unread: seq<nat>, k: nat, m: nat)
    returns (k': nat, m': nat)
    requires CursorInv(d, backlog, unread, k, m) && Ascending(backlog) && AcksAreSeen(d, t)
    ensures CursorInv(CursorTurn(d, t), backlog, unread, k', m')
    ensures t.Served? && d.pending ==> k' > k || !CursorTurn(d, t).pending
    ensures k' >= k
  {
    hide After, Without, Visited, Ascending, Flag;
    k', m' := k, m;
    if t.Served? && d.pending {
      CursorAdvances(d, t, backlog, unread, k);
      var batch := FirstOf(backlog[k..], t.extra + 1);
      VisitsBacklog(d.seen, backlog, unread, k, batch);
      PrefixGrows(backlog, k, batch);
      k' := k + |batch|;
    } else if t.Served? {
      m' := VisitsNew(d.(pel := Without(d.pel, t.acked)), t, backlog, unread, m);
    }
  }

  lemma FlagConcat(a: seq<nat>, b: seq<nat>, r: bool)
    ensures Flag(a + b, r) == Flag(a, r) + Flag(b, r)
  {
  }

  lemma AfterTail(s: seq<nat>, k: nat, k': nat)
    requires Ascending(s) && k < k' <= |s|
    ensures After(s[k..], s[k' - 1]) == s[k'..]
  {
    var tail := s[k..];
    AfterAscending(tail, k' - k);
    assert tail[k' - k - 1] == s[k' - 1] && tail[k' - k..] == s[k'..];
  }

  function Successes(script: seq<Turn>): nat {
    if script == [] then 0 else (if script[0].Served? then 1 else 0) + Successes(script[1..])
  }

  lemma {:induction false} CursorRunKeepsInv(
      d: Drain, script: seq<Turn>, backlog: seq<nat>, unread: seq<nat>, k: nat, m: nat)
    returns (k': nat, m': nat)
    requires CursorInv(d, backlog, unread, k, m) && Ascending(backlog) && CursorScript(d, script)
    ensures CursorInv(CursorRun(d, script), backlog, unread, k', m')
    ensures Successes(script) > |backlog| - k ==> !CursorRun(d, script).pending
    decreases |script|
  {
    k', m' := k, m;
    if script != [] {
      var k1, m1 := CursorTurnKeepsInv(d, script[0], backlog, unread, k, m);
      k', m' := CursorRunKeepsInv(CursorTurn(d, script[0]), script[1..], backlog, unread, k1, m1);
      if !CursorTurn(d, script[0]).pending {
        StaysDrained(CursorTurn(d, script[0]), script[1..]);
      }
    }
  }

  lemma {:induction false} StaysDrained(d: Drain, script: seq<Turn>)
    requires !d.pending
    ensures !CursorRun(d, script).pending
    decreases |script|
  {
    if script != [] {
      StaysDrained(CursorTurn(d, script[0]), script[1..]);
    }
  }

  /**
   Whatever the read sizes, errors and acks: the responder dispatches a prefix of its backlog in
   id order, each entry once and flagged as pending, and then a prefix of the new entries; it
   reads new ones only after the whole backlog, and it gets there within |backlog| + 1 reads.
   */
  lemma CursorDrain(backlog: seq<nat>, unread: seq<nat>, script: seq<Turn>) returns (k: nat, m: nat)
    requires Ascending(backlog) && CursorScript(Start(backlog, unread), script)
    ensures var d := CursorRun(Start(backlog, unread), script);
      Visited(d.seen, backlog, unread, k, m) && (m > 0 || !d.pending ==> k == |backlog|) &&
      (Successes(script) > |backlog| ==> !d.pending)
  {
    AfterAscending(backlog, 0);
    assert backlog[0..] == backlog;
    k, m := CursorRunKeepsInv(Start(backlog, unread), script, backlog, unread, 0, 0);
  }

  // ---- the telemetry consumer's re-read from "0" ---------------------------------

  /** The callback acks every delivery; acks in `lost` do not take effect. */
  function RereadTurn(d: Drain, t: Turn): Drain {
    if t.Failed? then d
    else if d.pending then
      var batch := FirstOf(d.pel, t.extra + 1);
      if batch == [] then d.(pending := false)
      else d.(pel := Without(d.pel, ToSet(batch) - t.lost), seen := d.seen + Flag(batch, true))
    else ReadNew(d, t)
  }

  function RereadRun(d: Drain, script: seq<Turn>): Drain
    decreases |script|
  {
    if script == [] then d else RereadRun(RereadTurn(d, script[0]), script[1..])
  }

  /** No ack of a backlog entry is ever lost. */
  predicate AllAcksSucceed(script: seq<Turn>, backlog: seq<nat>) {
    forall i :: 0 <= i < |script| ==> AcksSucceed(script[i], backlog)
  }

  predicate AcksSucceed(t: Turn, backlog: seq<nat>) {
    t.Served? ==> forall id :: id in backlog ==> id !in t.lost
  }

  ghost predicate RereadInv(d: Drain, backlog: seq<nat>, unread: seq<nat>, k: nat, m: nat) {
    k <= |backlog| && m <= |unread| && Visited(d.seen, backlog, unread, k, m) &&
    d.unread == unread[m..] && d.pel == backlog[k..] &&
    (d.pending ==> m == 0) && (!d.pending ==> k == |backlog|)
  }

  lemma {:induction false} WithoutPrefix(s: seq<nat>, n: nat)
    requires n <= |s| && forall i, j :: 0 <= i < j < |s| ==> s[i] < s[j]
    ensures Without(s, ToSet(s[..n])) == s[n..]
    decreases n
  {
    var gone := ToSet(s[..n]);
    if n == 0 {
      WithoutNone(s, gone);
    } else {
      assert s[0] == s[..n][0];
      var rest := ToSet(s[1..][..n - 1]);
      assert s[..n] == [s[0]] + s[1..][..n - 1];
      assert gone == rest + {s[0]};
      SkipAbsent(s[1..], rest, s[0]);
      WithoutPrefix(s[1..], n - 1);
      assert s[1..][n - 1..] == s[n..];
    }
  }

  lemma {:induction false} WithoutNone(s: seq<nat>, gone: set<nat>)
    requires forall i :: 0 <= i < |s| ==> s[i] !in gone
    ensures Without(s, gone) == s
  {
    if s != [] {
      WithoutNone(s[1..], gone);
      assert s == [s[0]] + s[1..];
    }
  }

  lemma {:induction false} SkipAbsent(s: seq<nat>, gone: set<nat>, x: nat)
    requires forall i :: 0 <= i < |s| ==> s[i] != x
    ensures Without(s, gone + {x}) == Without(s, gone)
  {
    if s != [] {
      SkipAbsent(s[1..], gone, x);
    }
  }

  lemma RereadTurnKeepsInv(d: Drain, t: Turn, backlog: seq<nat>, unread: seq<nat>, k: nat, m: nat)
    returns (k': nat, m': nat)
    requires RereadInv(d, backlog, unread, k, m) && Ascending(backlog) && AcksSucceed(t, backlog)
    ensures RereadInv(RereadTurn(d, t), backlog, unread, k', m')
    ensures t.Served? && d.pending ==> k' > k || !RereadTurn(d, t).pending
  {
    hide Without, Visited, Flag;
    k', m' := k, m;
    if t.Served? && d.pending {
      var batch := FirstOf(d.pel, t.extra + 1);
      assert batch == d.pel[..|batch|];
      assert forall i :: 0 <= i < |d.pel| ==> d.pel[i] == backlog[k + i];
      WithoutPrefix(d.pel, |batch|);
      assert forall id :: id in batch ==> id in backlog[k..] && id in backlog;
      assert ToSet(batch) - t.lost == ToSet(batch);
      VisitsBacklog(d.seen, backlog, unread, k, batch);
      k' := k + |batch|;
      assert backlog[k..][|batch|..] == backlog[k'..];
    } else if t.Served? {
      m' := VisitsNew(d, t, backlog, unread, m);
    }
  }

  lemma {:induction false} RereadRunKeepsInv(
      d: Drain, script: seq<Turn>, backlog: seq<nat>, unread: seq<nat>, k: nat, m: nat)
    returns (k': nat, m': nat)
    requires RereadInv(d, backlog, unread, k, m) && Ascending(backlog) && AllAcksSucceed(script, backlog)
    ensures RereadInv(RereadRun(d, script), backlog, unread, k', m')
    ensures d.pending && Successes(script) > |backlog| - k ==> !RereadRun(d, script).pending
    ensures !d.pending ==> !RereadRun(d, script).pending
    decreases |script|
  {
    k', m' := k, m;
    if script != [] {
      var k1, m1 := RereadTurnKeepsInv(d, script[0], backlog, unread, k, m);
      k', m' := RereadRunKeepsInv(RereadTurn(d, script[0]), script[1..], backlog, unread, k1, m1);
    }
  }

  /** When every ack succeeds, re-reading from "0" drains like the cursor does. */
  lemma RereadDrain(backlog: seq<nat>, unread: seq<nat>, script: seq<Turn>) returns (k: nat, m: nat)
    requires Ascending(backlog) && AllAcksSucceed(script, backlog)
    ensures var d := RereadRun(Start(backlog, unread), script);
      Visited(d.seen, backlog, unread, k, m) && (m > 0 || !d.pending ==> k == |backlog|) &&
      (Successes(script) > |backlog| ==> !d.pending)
  {
    assert backlog[0..] == backlog;
    k, m := RereadRunKeepsInv(Start(backlog, unread), script, backlog, unread, 0, 0);
  }

  lemma {:induction false} WithoutKeeps(s: seq<nat>, gone: set<nat>, id: nat)
    requires id in s && id !in gone
    ensures id in Without(s, gone)
  {
    if s[0] != id {
      WithoutKeeps(s[1..], gone, id);
    }
  }

  /** In every read of the script the ack of `id` is lost. */
  predicate AlwaysLoses(script: seq<Turn>, id: nat) {
    forall i :: 0 <= i < |script| && script[i].Served? ==> id in script[i].lost
  }

  /** All that was dispatched since is flagged as redelivered, at least one entry a read. */
  ghost predicate OnlyRedelivers(before: seq<Seen>, after: seq<Seen>, n: nat) {
    before <= after && |before| + n <= |after| && forall i :: |before| <= i < |after| ==> after[i].redelivered
  }

  lemma LostAckTurn(d: Drain, t: Turn, id: nat)
    requires d.pending && id in d.pel && (t.Served? ==> id in t.lost)
    ensures var d' := RereadTurn(d, t);
      d'.pending && id in d'.pel && d'.unread == d.unread && OnlyRedelivers(d.seen, d'.seen, if t.Served? then 1 else 0)
  {
    if t.Served? {
      var batch := FirstOf(d.pel, t.extra + 1);
      WithoutKeeps(d.pel, ToSet(batch) - t.lost, id);
    }
  }

  /**
   Why it needs the acks: while one entry's ack keeps failing, whatever else happens, that entry
   stays pending, every read dispatches backlog entries again, and no new entry is ever read.
   */
  lemma {:induction false} LostAcksNeverDrain(d: Drain, script: seq<Turn>, id: nat)
    requires d.pending && id in d.pel && AlwaysLoses(script, id)
    ensures var d' := RereadRun(d, script);
      d'.pending && id in d'.pel && d'.unread == d.unread && OnlyRedelivers(d.seen, d'.seen, Successes(script))
    decreases |script|
  {
    hide RereadTurn;
    if script != [] {
      LostAckTurn(d, script[0], id);
      LostAcksNeverDrain(RereadTurn(d, script[0]), script[1..], id);
    }
  }

  /**
   When the re-read drains and when it does not: if the acks that fail are the same in every read,
   then with more reads than backlog entries the consumer gets past its backlog if and only if
   none of them is of a backlog entry.
   */
  lemma RereadDrainsExactly(backlog: seq<nat>, unread: seq<nat>, script: seq<Turn>, failing: set<nat>)
    requires Ascending(backlog) && Successes(script) > |backlog|
    requires forall i :: 0 <= i < |script| && script[i].Served? ==> script[i].lost == failing
    ensures !RereadRun(Start(backlog, unread), script).pending <==> forall id :: id in backlog ==> id !in failing
  {
    if id :| id in backlog && id in failing {
      LostAcksNeverDrain(Start(backlog, unread), script, id);
    } else {
      var _, _ := RereadDrain(backlog, unread, script);
    }
  }

  lemma {:induction false} WithoutIs(s: seq<nat>, gone: set<nat>)
    ensures forall id :: id in Without(s, gone) <==> id in s && id !in gone
    ensures |Without(s, gone)| <= |s|
    ensures |Without(s, gone)| < |s| <==> exists id :: id in s && id in gone
  {
    if s != [] {
      WithoutIs(s[1..], gone);
      assert forall id :: id in s <==> id == s[0] || id in s[1..];
    }
  }

  /** The read acks some entry it returned. */
  ghost predicate AcksSome(d: Drain, t: Turn) {
    t.Served? && exists id :: id in FirstOf(d.pel, t.extra + 1) && id !in t.lost
  }

  /** The backlog shrinks in a read exactly when one of the entries it returned is acked. */
  lemma ShrinksExactly(d: Drain, t: Turn)
    requires d.pending
    ensures |RereadTurn(d, t).pel| <= |d.pel|
    ensures |RereadTurn(d, t).pel| < |d.pel| <==> AcksSome(d, t)
  {
    if t.Served? {
      var batch := FirstOf(d.pel, t.extra + 1);
      WithoutIs(d.pel, ToSet(batch) - t.lost);
      assert forall id :: id in batch ==> id in d.pel;
    }
  }

  /** Every read of a backlog not yet empty acks something. */
  ghost predicate EachReadAcks(d: Drain, script: seq<Turn>)
    decreases |script|
  {
    script == [] ||
    ((script[0].Served? && d.pending && d.pel != [] ==> AcksSome(d, script[0])) &&
     EachReadAcks(RereadTurn(d, script[0]), script[1..]))
  }

  /** Some acks may be lost: it is enough that each read acks one entry to drain within one read per entry plus one. */
  lemma {:induction false} RereadDrainsWhileAcking(d: Drain, script: seq<Turn>)
    requires EachReadAcks(d, script) && (d.pending ==> Successes(script) > |d.pel|)
    ensures !RereadRun(d, script).pending
    decreases |script|
  {
    hide AcksSome;
    if script != [] {
      if d.pending {
        ShrinksExactly(d, script[0]);
      }
      RereadDrainsWhileAcking(RereadTurn(d, script[0]), script[1..]);
    }
  }

  /** Whatever acks are lost: before the switch only backlog entries, flagged; after it the backlog was all seen. */
  ghost predicate AtLeastOnceInv(d: Drain, backlog: seq<nat>, unread: seq<nat>, n: nat, m: nat) {
    n <= |d.seen| && m <= |unread| && d.unread == unread[m..] &&
    d.seen[n..] == Flag(unread[..m], false) &&
    (forall i :: 0 <= i < n ==> d.seen[i].redelivered && d.seen[i].id in backlog) &&
    (forall id :: id in d.pel ==> id in backlog) &&
    (forall id :: id in backlog ==> id in d.pel || SeenBefore(d.seen, n, id)) &&
    (d.pending ==> m == 0 && n == |d.seen|) && (!d.pending ==> d.pel == [])
  }

  ghost predicate SeenBefore(seen: seq<Seen>, n: nat, id: nat) {
    exists i :: 0 <= i < n <= |seen| && seen[i].id == id
  }

  lemma BacklogTurnKeepsInv(d: Drain, t: Turn, backlog: seq<nat>, unread: seq<nat>)
    requires AtLeastOnceInv(d, backlog, unread, |d.seen|, 0) && d.pending && t.Served?
    ensures var d' := RereadTurn(d, t); AtLeastOnceInv(d', backlog, unread, |d'.seen|, 0)
  {
    var d', batch := RereadTurn(d, t), FirstOf(d.pel, t.extra + 1);
    if batch != [] {
      var gone := ToSet(batch) - t.lost;
      WithoutIs(d.pel, gone);
      forall id | id in backlog
        ensures id in d'.pel || SeenBefore(d'.seen, |d'.seen|, id)
      {
        if id in batch {
          var x :| 0 <= x < |batch| && batch[x] == id;
          assert d'.seen[|d.seen| + x].id == id;
        } else if id !in d.pel {
          var x :| 0 <= x < |d.seen| && d.seen[x].id == id;
          assert d'.seen[x].id == id;
        }
      }
      assert forall id :: id in batch ==> id in d.pel;
      assert d'.seen[|d'.seen|..] == Flag(unread[..0], false);
    }
  }

  lemma StillSeen(seen: seq<Seen>, more: seq<Seen>, n: nat, id: nat)
    requires SeenBefore(seen, n, id)
    ensures SeenBefore(seen + more, n, id)
  {
    var x :| 0 <= x < n && seen[x].id == id;
    assert (seen + more)[x].id == id;
  }

  /** Reading new entries, the first `n` dispatches are untouched. */
  lemma NewTurnKeepsInv(d: Drain, t: Turn, backlog: seq<nat>, unread: seq<nat>, n: nat, m: nat) returns (m': nat)
    requires AtLeastOnceInv(d, backlog, unread, n, m) && !d.pending && t.Served?
    ensures AtLeastOnceInv(RereadTurn(d, t), backlog, unread, n, m')
  {
    hide Flag, SeenBefore, ToSet, Without;
    var d' := RereadTurn(d, t);
    var ids := FirstOf(d.unread, if t.extra + 1 < t.arrived then t.extra + 1 else t.arrived);
    m' := m + |ids|;
    PrefixGrows(unread, m, ids);
    NewTurnSeen(d, t, unread, n, m, ids);
    forall id | id in backlog
      ensures SeenBefore(d'.seen, n, id)
    {
      StillSeen(d.seen, Flag(ids, false), n, id);
    }
  }

  lemma NewTurnSeen(d: Drain, t: Turn, unread: seq<nat>, n: nat, m: nat, ids: seq<nat>)
    requires n <= |d.seen| && m <= |unread| && d.unread == unread[m..] && d.seen[n..] == Flag(unread[..m], false)
    requires !d.pending && t.Served?
    requires ids == FirstOf(d.unread, if t.extra + 1 < t.arrived then t.extra + 1 else t.arrived)
    ensures var d' := RereadTurn(d, t);
      && m + |ids| <= |unread| && d'.unread == unread[m + |ids|..] && d'.seen == d.seen + Flag(ids, false)
      && d'.seen[n..] == Flag(unread[..m + |ids|], false) && d'.pel == d.pel && !d'.pending
  {
    hide Flag;
    PrefixGrows(unread, m, ids);
    FlagConcat(unread[..m], ids, false);
    assert (d.seen + Flag(ids, false))[n..] == d.seen[n..] + Flag(ids, false);
    assert unread[m..][|ids|..] == unread[m + |ids|..];
  }

  lemma {:induction false} RereadKeepsAtLeastOnce(
      d: Drain, script: seq<Turn>, backlog: seq<nat>, unread: seq<nat>, n: nat, m: nat) returns (n': nat, m': nat)
    requires AtLeastOnceInv(d, backlog, unread, n, m)
    ensures AtLeastOnceInv(RereadRun(d, script), backlog, unread, n', m')
    decreases |script|
  {
    hide AtLeastOnceInv;
    n', m' := n, m;
    if script != [] {
      var d1 := RereadTurn(d, script[0]);
      if script[0].Served? {
        PendingMeansAll(d, backlog, unread, n, m);
        if d.pending {
          BacklogTurnKeepsInv(d, script[0], backlog, unread);
          n', m' := RereadKeepsAtLeastOnce(d1, script[1..], backlog, unread, |d1.seen|, 0);
        } else {
          m' := NewTurnKeepsInv(d, script[0], backlog, unread, n, m);
          n', m' := RereadKeepsAtLeastOnce(d1, script[1..], backlog, unread, n, m');
        }
      } else {
        n', m' := RereadKeepsAtLeastOnce(d1, script[1..], backlog, unread, n, m);
      }
    }
  }

  lemma PendingMeansAll(d: Drain, backlog: seq<nat>, unread: seq<nat>, n: nat, m: nat)
    requires AtLeastOnceInv(d, backlog, unread, n, m)
    ensures d.pending ==> n == |d.seen| && m == 0
  {
  }

  /**
   For every script, lost acks included: the first `n` dispatches are backlog entries, flagged; the
   rest are a prefix of the new entries in order, each once, not flagged; and once the consumer has
   switched, or read a new entry, every backlog entry was dispatched at least once.
   */
  lemma RereadAtLeastOnce(backlog: seq<nat>, unread: seq<nat>, script: seq<Turn>) returns (n: nat, m: nat)
    ensures var d := RereadRun(Start(backlog, unread), script);
      && n <= |d.seen| && m <= |unread| && d.seen[n..] == Flag(unread[..m], false)
      && (forall i :: 0 <= i < n ==> d.seen[i].redelivered && d.seen[i].id in backlog)
      && (!d.pending || m > 0 ==> forall id :: id in backlog ==> SeenBefore(d.seen, n, id))
  {
    var d0 := Start(backlog, unread);
    assert d0.seen[0..] == Flag(unread[..0], false);
    n, m := RereadKeepsAtLeastOnce(d0, script, backlog, unread, 0, 0);
  }

  function Least(a: nat, b: nat): nat {
    if a < b then a else b
  }

  /** A read of new entries takes as many as have arrived, up to the read's size, off the front. */
  lemma NewEntriesTaken(d: Drain, t: Turn)
    requires t.Served? && !d.pending
    ensures var n := Least(Least(t.extra + 1, t.arrived), |d.unread|);
      forall d' | d' == CursorTurn(d, t) || d' == RereadTurn(d, t) ::
        d'.unread == d.unread[n..] && d'.seen == d.seen + Flag(d.unread[..n], false) && !d'.pending
  {
    hide Flag, Without;
  }

  /** A read of the backlog takes as much of what is left of it as the read's size allows. */
  lemma BacklogTaken(d: Drain, t: Turn)
    requires t.Served? && d.pending
    ensures var left := After(Without(d.pel, t.acked), d.cursor);
      CursorTurn(d, t).seen == d.seen + Flag(left[..Least(t.extra + 1, |left|)], true)
    ensures RereadTurn(d, t).seen == d.seen + Flag(d.pel[..Least(t.extra + 1, |d.pel|)], true)
  {
    hide Without, After;
    assert d.seen + Flag([], true) == d.seen;
  }

  // ---- the loops -----------------------------------------------------------------

  /** StreamResponder.loop over a script of reads. */
  method ResponderLoop(backlog: seq<nat>, unread: seq<nat>, script: seq<Turn>) returns (d: Drain)
    ensures d == CursorRun(Start(backlog, unread), script)
  {
    hide After, Without, Flag;
    var pel, rest, pending, lastPending, seen := backlog, unread, true, 0, [];
    var i := 0;
    while i < |script|
      invariant 0 <= i <= |script|
      invariant CursorRun(Start(backlog, unread), script)
             == CursorRun(Drain(pel, rest, pending, lastPending, seen), script[i..])
    {
      assert script[i..][1..] == script[i + 1..];
      if script[i].Served? {
        pel := Without(pel, script[i].acked);
        if pending {
          var batch := FirstOf(After(pel, lastPending), script[i].extra + 1);
          if batch == [] {
            pending := false;
          } else {
            lastPending, seen := batch[|batch| - 1], seen + Flag(batch, true);
          }
        } else {
          var limit := if script[i].extra + 1 < script[i].arrived then script[i].extra + 1 else script[i].arrived;
          var batch := FirstOf(rest, limit);
          rest, seen := rest[|batch|..], seen + Flag(batch, false);
        }
      }
      i := i + 1;
    }
    d := Drain(pel, rest, pending, lastPending, seen);
  }

  /** streamConsumer.Consume over a script of reads. */
  method ConsumerLoop(backlog: seq<nat>, unread: seq<nat>, script: seq<Turn>) returns (d: Drain)
    ensures d == RereadRun(Start(backlog, unread), script)
  {
    d := Start(backlog, unread);
    var i := 0;
    while i < |script|
      invariant 0 <= i <= |script|
      invariant RereadRun(Start(backlog, unread), script) == RereadRun(d, script[i..])
    {
      assert script[i..][1..] == script[i + 1..];
      var t := script[i];
      if t.Served? {
        if d.pending {
          var batch := FirstOf(d.pel, t.extra + 1);
          var total := |batch|;
          if total == 0 {
            d := d.(pending := false);
          } else {
            d := d.(pel := Without(d.pel, ToSet(batch) - t.lost), seen := d.seen + Flag(batch, true));
          }
        } else {
          d := ReadNew(d, t);
        }
      }
      i := i + 1;
    }
  }
}
