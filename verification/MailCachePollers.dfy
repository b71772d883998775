/** Any number of clients that poll one mail cache, each with its own cursor and limit, while writers
    warm it: what each of them shows after a poll. */
module MailCachePollers {
  import opened MailCache
  import opened MailCacheSync

  // ---------- Runs ----------

  datatype Move = Write(arriving: seq<Entry>) | Ask(id: string, limit: int, live: seq<Overview>)

  datatype World = World(win: Window, clients: map<string, Client>)

  const NEW_CLIENT: Client := Client(map[], 0)

  const NEW_WORLD: World := World(EMPTY_WINDOW, map[])

  function ClientOf(w: World, id: string): Client {
    if id in w.clients then w.clients[id] else NEW_CLIENT
  }

  /** What the move does to the window. */
  function OpOf(m: Move): Op {
    match m
    case Write(arriving) => Warm(arriving)
    case Ask(_, limit, live) => Poll(limit, live)
  }

  /** A client after a poll. */
  ghost function Polled(win: Window, c: Client, limit: int, live: seq<Overview>): Client {
    var d := SyncDelta(win, limit, live, c.cursor);
    Client(Patched(c.replica, d), d.cursor)
  }

  ghost function Turn(w: World, m: Move): World {
    World(After(w.win, OpOf(m)),
          match m
          case Write(_) => w.clients
          case Ask(id, limit, live) => w.clients[id := Polled(w.win, ClientOf(w, id), limit, live)])
  }

  ghost function Turns(w: World, moves: seq<Move>): World
    decreases |moves|
  {
    if moves == [] then w else Turns(Turn(w, moves[0]), moves[1..])
  }

  /** The mail server lists a message once. */
  ghost predicate AllSensible(moves: seq<Move>) {
    forall k :: 0 <= k < |moves| ==> Sensible(OpOf(moves[k]))
  }

  // ---------- Every client knows what its cursor says ----------

  /** The client has the metadata of every entry of the window its cursor came from. */
  ghost predicate Informed(win: Window, c: Client) {
    exists base :: Polling(base, c.cursor, win, c.replica)
  }

  lemma {:induction false} InformedLater(win: Window, c: Client, op: Op)
    requires Informed(win, c) && Sensible(op)
    ensures Informed(After(win, op), c)
  {
    var base :| Polling(base, c.cursor, win, c.replica);
    var after := After(win, op);
    StepFollows(win, op);
    hide After, Follows, KeepsFirst, ResetBy, Covers, Ascending, Bounded;
    FollowsTrans(base, c.cursor, win.entries, win.seqNo, after.entries, after.seqNo);
    assert Polling(base, c.cursor, after, c.replica);
  }

  /** A poll informs its client again, whatever it missed before. */
  lemma {:induction false} PollInforms(win: Window, c: Client, limit: int, live: seq<Overview>)
    requires Informed(win, c) && DistinctLive(live)
    ensures var next := Polled(win, c, limit, live);
            && Informed(Synced(win, limit, live), next) && ShowsLive(next.replica, live)
            && (HoldsLive(next.replica, live)
                <==> forall u :: u in c.replica ==> IsLive(live, u) || HasUid(Comparable(win, limit), u))
  {
    var base :| Polling(base, c.cursor, win, c.replica);
    var after, next := Synced(win, limit, live), Polled(win, c, limit, live);
    DeltaExact(base, c.cursor, win, c.replica, limit, live);
    SyncFollows(win, limit, live);
    FollowsSelf(after.entries, after.seqNo);
    assert next.cursor == after.seqNo;
    hide Synced, Patched, Polled, Follows, KeepsFirst, HasUid, Comparable, HoldsLive, Ascending, Bounded;
    forall e | e in after.entries
      ensures e.uid in next.replica && next.replica[e.uid] == e.meta
    {
      EntryIsLive(win, limit, live, e);
    }
    assert Polling(after.entries, next.cursor, after, next.replica);
  }

  ghost predicate AllInformed(w: World) {
    forall id :: Informed(w.win, ClientOf(w, id))
  }

  lemma {:induction false} TurnInforms(w: World, m: Move)
    requires AllInformed(w) && Sensible(OpOf(m))
    ensures AllInformed(Turn(w, m))
  {
    hide After, Polled, Informed, Sensible;
    var next := Turn(w, m);
    forall id
      ensures Informed(next.win, ClientOf(next, id))
    {
      InformedLater(w.win, ClientOf(w, id), OpOf(m));
      if m.Ask? && id == m.id {
        AskInforms(w, m);
      }
    }
  }

  lemma {:induction false} AskInforms(w: World, m: Move)
    requires AllInformed(w) && m.Ask? && Sensible(OpOf(m))
    ensures Informed(Turn(w, m).win, ClientOf(Turn(w, m), m.id))
  {
    hide Synced, Polled, Informed, DistinctLive;
    PollInforms(w.win, ClientOf(w, m.id), m.limit, m.live);
  }

  lemma {:induction false} TurnsInform(w: World, moves: seq<Move>)
    requires AllInformed(w) && AllSensible(moves)
    ensures AllInformed(Turns(w, moves))
    decreases |moves|
  {
    hide AllInformed, Turn, Sensible;
    if moves != [] {
      TurnInforms(w, moves[0]);
      TurnsInform(Turn(w, moves[0]), moves[1..]);
    }
  }

  lemma {:induction false} NewInformed()
    ensures AllInformed(NEW_WORLD)
  {
    forall id
      ensures Informed(NEW_WORLD.win, ClientOf(NEW_WORLD, id))
    {
      assert Polling([], 0, EMPTY_WINDOW, map[]);
    }
  }

  // ---------- What a client shows ----------

  /** After any run of writes and polls, with any limits and any number of clients, a poll leaves its
      client with every live message as it is now, and with exactly the live list if and only if every
      message the client showed is live or was still in the window the poll compared with. */
  lemma {:induction false} EveryPollExact(moves: seq<Move>, id: string, limit: int, live: seq<Overview>)
    requires AllSensible(moves) && DistinctLive(live)
    ensures var w := Turns(NEW_WORLD, moves);
            var shown := ClientOf(w, id).replica;
            var next := ClientOf(Turn(w, Ask(id, limit, live)), id).replica;
            && ShowsLive(next, live)
            && (HoldsLive(next, live)
                <==> forall u :: u in shown ==> IsLive(live, u) || HasUid(Comparable(w.win, limit), u))
  {
    hide Turns, Synced, Polled, Informed, DistinctLive, HoldsLive, ShowsLive, HasUid, IsLive, Comparable, AllSensible;
    var w := Turns(NEW_WORLD, moves);
    NewInformed();
    TurnsInform(NEW_WORLD, moves);
    PollInforms(w.win, ClientOf(w, id), limit, live);
  }

  // ---------- When a client is always right ----------

  /** After each of its polls the client shows exactly the live list. */
  ghost predicate AlwaysLive(w: World, moves: seq<Move>, id: string)
    decreases |moves|
  {
    moves == [] ||
    var next := Turn(w, moves[0]);
    && (moves[0].Ask? && moves[0].id == id ==> HoldsLive(ClientOf(next, id).replica, moves[0].live))
    && AlwaysLive(next, moves[1..], id)
  }

  /** Each message of the list is live or in the window. */
  ghost predicate Seen(listed: seq<Overview>, win: Window, limit: int, live: seq<Overview>) {
    forall k :: 0 <= k < |listed| ==> IsLive(live, listed[k].uid) || HasUid(Comparable(win, limit), listed[k].uid)
  }

  /** Whenever the client polls, each message live at its poll before is live still, or in the window the
      poll compares with: no one else's poll, no change of the limit and no overflow took it out. */
  ghost predicate NothingMissed(win: Window, listed: seq<Overview>, moves: seq<Move>, id: string)
    decreases |moves|
  {
    moves == [] ||
    var m, next := moves[0], After(win, OpOf(moves[0]));
    if m.Ask? && m.id == id then Seen(listed, win, m.limit, m.live) && NothingMissed(next, m.live, moves[1..], id)
    else NothingMissed(next, listed, moves[1..], id)
  }

  lemma {:induction false} SeenExact(replica: Replica, listed: seq<Overview>, win: Window, limit: int, live: seq<Overview>)
    requires HoldsLive(replica, listed)
    ensures Seen(listed, win, limit, live)
       <==> forall u :: u in replica ==> IsLive(live, u) || HasUid(Comparable(win, limit), u)
  {
    hide HasUid, Comparable;
    if Seen(listed, win, limit, live) {
      forall u | u in replica
        ensures IsLive(live, u) || HasUid(Comparable(win, limit), u)
      {
        var k :| 0 <= k < |listed| && listed[k].uid == u;
      }
    }
  }

  lemma {:induction false} AlwaysLiveFrom(w: World, listed: seq<Overview>, moves: seq<Move>, id: string)
    requires AllInformed(w) && AllSensible(moves) && HoldsLive(ClientOf(w, id).replica, listed)
    ensures AlwaysLive(w, moves, id) <==> NothingMissed(w.win, listed, moves, id)
    decreases |moves|
  {
    hide HoldsLive, ShowsLive, AllInformed, Seen, After, Polled, DistinctLive, IsLive, HasUid, Comparable;
    if moves != [] {
      var m, next := moves[0], Turn(w, moves[0]);
      assert Sensible(OpOf(m));
      TurnInforms(w, m);
      if m.Ask? && m.id == id {
        AskExact(w, listed, m);
        if HoldsLive(ClientOf(next, id).replica, m.live) {
          AlwaysLiveFrom(next, m.live, moves[1..], id);
        }
      } else {
        AlwaysLiveFrom(next, listed, moves[1..], id);
      }
    }
  }

  lemma {:induction false} AskExact(w: World, listed: seq<Overview>, m: Move)
    requires AllInformed(w) && m.Ask? && Sensible(OpOf(m)) && HoldsLive(ClientOf(w, m.id).replica, listed)
    ensures HoldsLive(ClientOf(Turn(w, m), m.id).replica, m.live) <==> Seen(listed, w.win, m.limit, m.live)
  {
    hide HoldsLive, ShowsLive, Informed, Seen, After, Polled, DistinctLive, IsLive, HasUid, Comparable;
    var c := ClientOf(w, m.id);
    PollInforms(w.win, c, m.limit, m.live);
    SeenExact(c.replica, listed, w.win, m.limit, m.live);
  }

  /** A client among others shows exactly the live list after each of its polls if and only if it misses
      nothing between any two of them. */
  lemma {:induction false} AlwaysLiveExact(moves: seq<Move>, id: string)
    requires AllSensible(moves)
    ensures AlwaysLive(NEW_WORLD, moves, id) <==> NothingMissed(EMPTY_WINDOW, [], moves, id)
  {
    NewInformed();
    assert HoldsLive(ClientOf(NEW_WORLD, id).replica, []);
    hide HoldsLive, AllInformed, AlwaysLive, NothingMissed, AllSensible;
    AlwaysLiveFrom(NEW_WORLD, [], moves, id);
  }

  // ---------- Two pollers ----------

  /** A message was shown to one client; the poll of another one drops it from the window. */
  function Hidden(limit: int, ov: Overview): seq<Move> {
    [Ask("a", limit, [ov]), Ask("b", limit, []), Ask("a", limit, [])]
  }

  lemma {:induction false} HiddenRun(limit: int, ov: Overview)
    ensures var w := Turn(Turn(Turn(NEW_WORLD, Ask("a", limit, [ov])), Ask("b", limit, [])), Ask("a", limit, []));
            && Turns(NEW_WORLD, Hidden(limit, ov)) == w
            && (AlwaysLive(NEW_WORLD, Hidden(limit, ov), "a") ==> HoldsLive(ClientOf(w, "a").replica, []))
  {
    hide Turn, HoldsLive;
    var moves := Hidden(limit, ov);
    var w1 := Turn(NEW_WORLD, moves[0]);
    var w2 := Turn(w1, moves[1]);
    assert moves[1..][0] == moves[1] && moves[1..][1..] == [moves[2]] && [moves[2]][1..] == [];
    assert Turns(w2, [moves[2]]) == Turn(w2, moves[2]);
    assert AlwaysLive(NEW_WORLD, moves, "a") ==> AlwaysLive(w1, moves[1..], "a");
    assert AlwaysLive(w1, moves[1..], "a") ==> AlwaysLive(w2, [moves[2]], "a");
    assert [moves[2]][0] == Ask("a", limit, []);
    assert AlwaysLive(w2, [moves[2]], "a") ==> HoldsLive(ClientOf(Turn(w2, moves[2]), "a").replica, []);
  }

  lemma NothingLive(ov: Overview)
    ensures DistinctLive([ov]) && DistinctLive([]) && !IsLive([], ov.uid) && HoldsLive(map[], [])
  {
  }

  lemma GoneFromWindow(win: Window, limit: int, u: int)
    requires !HasUid(win.entries, u)
    ensures !HasUid(Comparable(win, limit), u)
  {
  }

  /** The first client shows the message, and the window has lost it before it polls again. */
  lemma {:induction false} ShownThenGone(limit: int, ov: Overview)
    ensures var w1 := Turn(NEW_WORLD, Ask("a", limit, [ov]));
            var w2 := Turn(w1, Ask("b", limit, []));
            && ov.uid in ClientOf(w2, "a").replica && Inv(w2.win) && !HasUid(w2.win.entries, ov.uid)
  {
    hide Synced, Polled, HasUid, AllInformed, Informed, HoldsLive, Seen, Ascending, Bounded, Follows, KeepsFirst;
    var w1 := Turn(NEW_WORLD, Ask("a", limit, [ov]));
    NothingLive(ov);
    NewInformed();
    AskShows(ov, limit);
    SyncFollows(EMPTY_WINDOW, limit, [ov]);
    SyncFollows(w1.win, limit, []);
    WindowUids(w1.win, limit, [], ov.uid);
    assert ClientOf(Turn(w1, Ask("b", limit, [])), "a") == ClientOf(w1, "a");
  }

  lemma {:induction false} AskShows(ov: Overview, limit: int)
    ensures ov.uid in ClientOf(Turn(NEW_WORLD, Ask("a", limit, [ov])), "a").replica
    ensures Inv(EMPTY_WINDOW)
  {
    NothingLive(ov);
    hide Synced, Polled, Seen, IsLive;
    EveryPollExact([], "a", limit, [ov]);
    assert [ov][0] == ov;
  }

  /** The first client never hears of it: whatever the limit, after its next poll it still shows a message
      although none is live. */
  lemma {:induction false} SecondPollerHidesRemoval(limit: int, ov: Overview)
    ensures ov.uid in ClientOf(Turns(NEW_WORLD, Hidden(limit, ov)), "a").replica
    ensures !AlwaysLive(NEW_WORLD, Hidden(limit, ov), "a")
  {
    var w2 := Turn(Turn(NEW_WORLD, Ask("a", limit, [ov])), Ask("b", limit, []));
    var c := ClientOf(w2, "a");
    ShownThenGone(limit, ov);
    HiddenRun(limit, ov);
    NothingLive(ov);
    GoneFromWindow(w2.win, limit, ov.uid);
    PatchedKeys(w2.win, c.replica, limit, [], c.cursor, ov.uid);
    hide Synced, SyncDelta, Patched, HasUid, Comparable, Turns, AlwaysLive, IsLive, ShowsLive;
  }
}
