/** The per-tile event log of src/server/tile.py: an append-only list of
    events, each player's index of the last event it read, and the order in
    which players last retrieved their events, used to drop events from the
    front of the log once the least recent reader has read them. */
module TileEvents {
  import opened Ints
  import opened Results
  import opened Seqs
  import opened Trade

  /** The three fields the log's methods update. */
  datatype Log<E> = Log(events: seq<E>, players: map<Username, int>, order: seq<Username>)

  /** Python's `s[k:]`: a negative `k` counts from the end, and a `k` past
      either end is clamped. */
  function PySlice<E>(s: seq<E>, k: int): (r: seq<E>)
    ensures 0 <= k <= |s| ==> r == s[k..]
    ensures k >= |s| ==> r == []
    ensures k < 0 ==> r == s[Max(0, |s| + k)..]
  {
    if k >= |s| then [] else if k >= 0 then s[k..] else if |s| + k > 0 then s[|s| + k..] else s
  }

  /** Every index lowered by `offset`. */
  function Shift(players: map<Username, int>, offset: int): (r: map<Username, int>)
    ensures r.Keys == players.Keys
    ensures forall p :: p in r ==> r[p] + offset == players[p]
  {
    map p | p in players :: players[p] - offset
  }

  /** `name` moved from its first occurrence to the end, the others keeping
      their relative order. */
  function MoveToBack(order: seq<Username>, name: Username): (r: seq<Username>)
    requires name in order
    ensures |r| == |order| && r[|r| - 1] == name
    ensures multiset(r) == multiset(order)
    ensures var i := FirstIndexOf(order, name).value;
            forall j :: 0 <= j < |r| - 1 ==> r[j] == order[if j < i then j else j + 1]
  {
    var i := FirstIndexOf(order, name).value;
    RemoveAt(order, i) + [name]
  }

  /** What `retrieved` leaves behind: `name` moved to the back of the
      order, and when it was at the front, every index lowered by its index
      and that many events dropped from the front of the log. */
  function AfterRetrieved<E>(log: Log<E>, name: Username): Log<E>
    requires name in log.players && name in log.order
  {
    var order := MoveToBack(log.order, name);
    if log.order[0] == name then
      var offset := log.players[name];
      Log(PySlice(log.events, offset), Shift(log.players, offset), order)
    else
      log.(order := order)
  }

  /** What `get_player_event` returns and leaves behind: it marks the last
      event as read by `name`, runs `retrieved`, and then slices the
      possibly compacted log after the index `name` had before. */
  function Fetched<E>(log: Log<E>, name: Username): (seq<E>, Log<E>)
    requires name in log.players && name in log.order
  {
    var idx := log.players[name];
    var after := AfterRetrieved(log.(players := log.players[name := |log.events| - 1]), name);
    (PySlice(after.events, idx + 1), after)
  }

  /** The events `p` has not read yet. */
  function Unread<E>(log: Log<E>, p: Username): seq<E>
    requires p in log.players
  {
    PySlice(log.events, log.players[p] + 1)
  }

  /** Every index points into the log, or just before it. */
  predicate Indexed<E>(log: Log<E>)
  {
    forall p :: p in log.players ==> -1 <= log.players[p] < |log.events|
  }

  class TileLog<E> {
    const pos: (int, int)
    var events: seq<E>
    var players: map<Username, int>
    var retrievedOrder: seq<Username>

    function State(): Log<E>
      reads this
    {
      Log(events, players, retrievedOrder)
    }

    /** Tile.__init__: no events, no players. */
    constructor (pos: (int, int))
      ensures this.pos == pos && State() == Log([], map[], [])
    {
      this.pos := pos;
      events := [];
      players := map[];
      retrievedOrder := [];
    }

    /** register: appends the event to the log. */
    method Register(e: E)
      modifies this
      ensures events == old(events) + [e]
      ensures players == old(players) && retrievedOrder == old(retrievedOrder)
    {
      events := events + [e];
    }

    /** add_player: the player has read everything up to the last event
        and becomes the most recent reader. */
    method AddPlayer(name: Username)
      modifies this
      ensures players == old(players)[name := |old(events)| - 1]
      ensures retrievedOrder == old(retrievedOrder) + [name]
      ensures events == old(events)
    {
      players := players[name := |events| - 1];
      retrievedOrder := retrievedOrder + [name];
    }

    /** get_player_event: `name` must be registered. */
    method GetPlayerEvent(name: Username) returns (r: seq<E>)
      modifies this
      requires name in players && name in retrievedOrder
      ensures (r, State()) == Fetched(old(State()), name)
    {
      var idx := players[name];
      players := players[name := |events| - 1];
      ghost var marked := State();
      Retrieved(name);
      assert State() == AfterRetrieved(marked, name);
      r := PySlice(events, idx + 1);
    }

    /** retrieved: moves `name` to the back of the order, and compacts the
        log when `name` was at its front. */
    method Retrieved(name: Username)
      modifies this
      requires name in players && name in retrievedOrder
      ensures State() == AfterRetrieved(old(State()), name)
    {
      var update := name == retrievedOrder[0];
      var i := FirstIndexOf(retrievedOrder, name).value;
      retrievedOrder := RemoveAt(retrievedOrder, i) + [name];
      if update {
        var offset := players[name];
        players := ShiftAll(players, offset);
        events := PySlice(events, offset);
      }
    }

    /** The loop of `retrieved` that lowers every index by `offset`. */
    static method ShiftAll(players: map<Username, int>, offset: int) returns (shifted: map<Username, int>)
      ensures shifted == Shift(players, offset)
    {
      shifted := players;
      var todo := players.Keys;
      while todo != {}
        invariant todo <= players.Keys && shifted.Keys == players.Keys
        invariant forall p :: p in players ==> shifted[p] == if p in todo then players[p] else players[p] - offset
        decreases todo
      {
        var p :| p in todo;
        shifted := shifted[p := shifted[p] - offset];
        todo := todo - {p};
      }
    }
  }

  /** Compaction keeps every index that survives it pointing at the same
      event. */
  lemma {:induction false} CompactionKeepsIndices<E>(log: Log<E>, name: Username, p: Username)
    requires name in log.players && name in log.order && p in log.players
    requires log.order[0] == name && 0 <= log.players[name] <= log.players[p] < |log.events|
    ensures var after := AfterRetrieved(log, name);
            |after.events| == |log.events| - log.players[name]
            && after.events[after.players[p]] == log.events[log.players[p]]
  {
  }

  /** After `get_player_event`, the reader's index points at the last event
      of the log; when it was the least recent reader, the log has shrunk to
      that one event at index 0. */
  lemma {:induction false} FetchMarksLastRead<E>(log: Log<E>, name: Username)
    requires name in log.players && name in log.order && log.events != []
    ensures var after := Fetched(log, name).1;
            && after.players[name] == |after.events| - 1
            && after.events[|after.events| - 1] == log.events[|log.events| - 1]
            && (log.order[0] == name ==> after.events == [log.events[|log.events| - 1]])
            && after.order[|after.order| - 1] == name
  {
  }

  /** As written, the least recent reader never gets an event it has not
      read beyond the last one, because the log it slices has already
      been compacted to that single event. */
  lemma {:induction false} FrontReaderGetsAtMostLast<E>(log: Log<E>, name: Username)
    requires name in log.players && name in log.order && log.events != []
    requires log.order[0] == name
    ensures |Fetched(log, name).0| <= 1
    ensures log.players[name] >= 0 ==> Fetched(log, name).0 == []
  {
    FetchMarksLastRead(log, name);
    var after := Fetched(log, name).1;
    assert |after.events| == 1;
  }

  /** The slice after compaction in action: one reader that has read the
      first of three events is handed nothing, not the other two. */
  lemma SliceAfterCompaction()
    ensures var log := Log([10, 11, 12], map["a" := 0], ["a"]);
            && Unread(log, "a") == [11, 12]
            && Fetched(log, "a").0 == []
            && FetchedCorrected(log, "a").0 == [11, 12]
  {
    var log := Log([10, 11, 12], map["a" := 0], ["a"]);
    assert log.events[1..] == [11, 12];
    var marked := log.players["a" := 2];
    assert MinIndex(marked) == 2 by {
      assert marked.Keys == {"a"};
    }
  }

  /** Compacting by the reader's new index drops events others have not
      read: after "a" reads, "b" (which had read two of five events) has
      lost the third and fourth, and its index falls below the log. */
  lemma CompactionLosesUnread()
    ensures var log := Log([0, 1, 2, 3, 4], map["a" := 0, "b" := 1], ["a", "b"]);
            var after := Fetched(log, "a").1;
            && Indexed(log)
            && Unread(log, "b") == [2, 3, 4]
            && Unread(after, "b") == [4]
            && !Indexed(after)
  {
    var log := Log([0, 1, 2, 3, 4], map["a" := 0, "b" := 1], ["a", "b"]);
    assert log.events[2..] == [2, 3, 4];
    var after := Fetched(log, "a").1;
    assert after.events == [4];
    assert after.players["b"] == -3;
  }

  // ---------------------------------------------------------------------
  // The evidently intended behaviour

  /** The smallest index of the players in `keys`. */
  ghost function MinOver(keys: set<Username>, m: map<Username, int>): (r: int)
    requires keys != {} && keys <= m.Keys
    ensures exists p :: p in keys && m[p] == r
    ensures forall p :: p in keys ==> r <= m[p]
    decreases |keys|
  {
    var p :| p in keys;
    if keys == {p} then m[p]
    else
      var rest := MinOver(keys - {p}, m);
      if m[p] <= rest then m[p] else rest
  }

  /** The smallest index of all players. */
  ghost function MinIndex(m: map<Username, int>): int
    requires m.Keys != {}
  {
    MinOver(m.Keys, m)
  }

  /** The log with its first `offset` events dropped and every index
      lowered to match. */
  function Compact<E>(log: Log<E>, offset: nat): (c: Log<E>)
    requires offset <= |log.events|
    ensures |c.events| == |log.events| - offset && c.players.Keys == log.players.Keys
  {
    Log(log.events[offset..], Shift(log.players, offset), log.order)
  }

  /** The log once `get_player_event` has marked the last event read by
      `name` and moved it to the back of the order. */
  function Marked<E>(log: Log<E>, name: Username): (m: Log<E>)
    requires name in log.order
    ensures m.events == log.events && m.players == log.players[name := |log.events| - 1]
  {
    Log(log.events, log.players[name := |log.events| - 1], MoveToBack(log.order, name))
  }

  /** `get_player_event` as intended: the events after the reader's index,
      sliced before anything is dropped; and compaction of only the events
      every player has read, keeping the last one each has read. */
  ghost function FetchedCorrected<E>(log: Log<E>, name: Username): (seq<E>, Log<E>)
    requires name in log.players && name in log.order
  {
    var unread := PySlice(log.events, log.players[name] + 1);
    var marked := Marked(log, name);
    if log.order[0] == name then
      assert name in marked.players.Keys;
      var offset := Max(0, MinIndex(marked.players));
      assert offset <= |log.events| by {
        assert marked.players[name] == |log.events| - 1;
      }
      (unread, Compact(marked, offset))
    else
      (unread, marked)
  }

  /** The corrected fetch hands out exactly the events after the reader's
      index, leaves it nothing unread, takes no unread event from any other
      player, and keeps every index within the log. */
  lemma {:induction false} FetchedCorrectedKeepsUnread<E>(log: Log<E>, name: Username)
    requires name in log.players && name in log.order && Indexed(log)
    ensures var (r, after) := FetchedCorrected(log, name);
            && r == log.events[log.players[name] + 1..]
            && Indexed(after)
            && Unread(after, name) == []
            && forall p :: p in log.players && p != name ==> Unread(after, p) == Unread(log, p)
  {
    var after := FetchedCorrected(log, name).1;
    var marked := Marked(log, name);
    if log.order[0] == name {
      assert name in marked.players;
      var offset := Max(0, MinIndex(marked.players));
      assert after == Compact(marked, offset);
      forall p | p in log.players
        ensures -1 <= after.players[p] < |after.events|
        ensures Unread(after, p) == Unread(marked, p)
      {
        assert offset <= marked.players[p] + 1;
        CompactKeepsUnread(marked, offset, p);
      }
    }
  }

  /** Dropping only events a player has read keeps its index within the log
      and its unread events as they were. */
  lemma CompactKeepsUnread<E>(log: Log<E>, offset: nat, p: Username)
    requires p in log.players && offset <= log.players[p] + 1 && log.players[p] < |log.events|
    ensures var c := Compact(log, offset);
            && -1 <= c.players[p] < |c.events|
            && Unread(c, p) == Unread(log, p)
  {
    var k := log.players[p] + 1;
    assert log.events[offset..][k - offset..] == log.events[k..];
  }

  /** Registering an event or adding a player keeps every index within the
      log. */
  lemma {:induction false} IndexedKept<E>(log: Log<E>, e: E, name: Username)
    requires Indexed(log)
    ensures Indexed(log.(events := log.events + [e]))
    ensures Indexed(log.(players := log.players[name := |log.events| - 1]))
  {
  }
}
