/** The lookup as the source runs it: an object whose calls update it in place. */
module LookupObject {
  import opened Common
  import opened ShaHash
  import opened LookupNodes
  import opened Lookup

  /** `insert_closest_nodes`, in place. */
  method InsertClosestNode(nodes: array<(Contact, bool)>, target: Hash, c: Contact)
    requires nodes.Length == ITERATIVE_PICK_NUM
    modifies nodes
    ensures nodes[..] == InsertPick(old(nodes[..]), target, c, 0)
  {
    for i := 0 to nodes.Length
      invariant nodes[..] == old(nodes[..])
      invariant InsertPick(nodes[..], target, c, i) == InsertPick(old(nodes[..]), target, c, 0)
    {
      if !nodes[i].1 || Lt(Dist(target, c), Dist(target, nodes[i].0)) {
        nodes[i] := (c, true);
        return;
      }
    }
  }

  /** `pick_iterate_nodes`. */
  method PickIterateNodes(cs: seq<Contact>, target: Hash) returns (picks: Picks)
    ensures picks == PickNodes(cs, target)
  {
    var slots := new (Contact, bool)[ITERATIVE_PICK_NUM](_ => DUMMY);
    assert cs[..0] == [];
    assert slots[..] == NO_PICKS;
    for i := 0 to |cs|
      invariant slots[..] == PickNodes(cs[..i], target)
    {
      InsertClosestNode(slots, target, cs[i]);
      assert cs[..i + 1][..i] == cs[..i];
    }
    assert cs[..|cs|] == cs;
    picks := slots[..];
  }

  /** `binary_search_by`. */
  method BinarySearch(s: seq<Entry>, d: Hash) returns (r: Search)
    ensures r == SearchDist(s, d, 0, |s|)
  {
    var lo, hi := 0, |s|;
    while lo < hi
      invariant 0 <= lo <= hi <= |s|
      invariant SearchDist(s, d, lo, hi) == SearchDist(s, d, 0, |s|)
      decreases hi - lo
    {
      var mid := (lo + hi) / 2;
      if s[mid].dist == d { return Search.Found(mid); }
      if Lt(s[mid].dist, d) { lo := mid + 1; } else { hi := mid; }
    }
    r := Missing(lo);
  }

  class TableLookup {
    const target: Hash
    const willAnnounce: bool
    var inEndgame: bool
    var recvValues: bool
    var active: map<TransId, Hash>
    var tokens: map<Contact, Token>
    var requested: set<Contact>
    var sorted: seq<Entry>
    ghost var asked: seq<Contact>

    ghost function View(): State
      reads this
    {
      State(target, willAnnounce, inEndgame, recvValues, active, tokens, requested, sorted, asked)
    }

    /** `TableLookup::new` up to its first round: the sorted list of offered nodes, the first four marked. */
    constructor (target: Hash, willAnnounce: bool, seeds: seq<Contact>)
      ensures View()
           == State(target, willAnnounce, false, false, map[], map[], {}, MarkInitial(SeedList(seeds, target)), [])
    {
      this.target := target;
      this.willAnnounce := willAnnounce;
      inEndgame, recvValues := false, false;
      active, tokens, requested := map[], map[], {};
      sorted, asked := [], [];
      new;
      assert seeds[..0] == [];
      for i := 0 to |seeds|
        invariant View() == State(target, willAnnounce, false, false, map[], map[], {}, SeedList(seeds[..i], target), [])
      {
        InsertSortedNode(seeds[i], false);
        assert seeds[..i + 1][..i] == seeds[..i];
      }
      assert seeds[..|seeds|] == seeds;
      MarkFirst();
    }

    /** `pick_initial_nodes`. */
    method MarkFirst()
      modifies this`sorted
      ensures sorted == MarkInitial(old(sorted))
    {
      for i := 0 to if |sorted| < INITIAL_PICK_NUM then |sorted| else INITIAL_PICK_NUM
        invariant |sorted| == old(|sorted|)
        invariant forall k :: 0 <= k < |sorted| ==>
          sorted[k] == if k < i then old(sorted)[k].(pinged := true) else old(sorted)[k]
      {
        sorted := sorted[i := sorted[i].(pinged := true)];
      }
    }

    /** `insert_sorted_node`. */
    method InsertSortedNode(node: Contact, pinged: bool)
      modifies this`sorted
      ensures sorted == InsertNode(old(sorted), target, node, pinged)
    {
      var e := Entry(Dist(target, node), node, pinged);
      var r := BinarySearch(sorted, e.dist);
      if r.Missing? || sorted[r.index].node != node {
        sorted := sorted[..r.index] + [e] + sorted[r.index..];
      }
    }

    /** `start_request_round`. */
    method SendRequests(round: seq<(Contact, Hash)>, env: Env) returns (status: LookupStatus)
      modifies this`active, this`requested, this`asked
      ensures (View(), status) == StartRound(old(View()), round, env)
    {
      var messagesSent := 0;
      for k := 0 to |round|
        invariant messagesSent == k
        invariant SendRound(View(), round, env, k) == SendRound(old(View()), round, env, 0)
      {
        if !env.timers(k) { return Failed; }
        active := active[env.ids(k) := round[k].1];
        if !env.sends(k) { return Failed; }
        asked := asked + [round[k].0];
        requested := requested + {round[k].0};
        messagesSent := messagesSent + 1;
      }
      if messagesSent == 0 {
        active := map[];
        return Completed;
      }
      return Searching;
    }

    /** `start_endgame_round`. */
    method StartEndgameRound(env: Env, base: nat) returns (status: LookupStatus)
      modifies this`inEndgame, this`active, this`sorted, this`asked
      ensures (View(), status) == StartEndgame(old(View()), env, base)
    {
      inEndgame := true;
      if !env.timers(base) { return Failed; }
      if !recvValues {
        ghost var s1 := View();
        for i := 0 to |sorted|
          invariant |sorted| == |s1.sorted|
          invariant SendEndgame(View(), env, base + 1, i) == SendEndgame(s1, env, base + 1, 0)
        {
          if !sorted[i].pinged {
            active := active[env.ids(base + 1 + i) := sorted[i].dist];
            if !env.sends(base + 1 + i) { return Failed; }
            asked := asked + [sorted[i].node];
            sorted := sorted[i := sorted[i].(pinged := true)];
          }
        }
      }
      return Searching;
    }

    method ContinueRounds(round: Option<seq<(Contact, Hash)>>, env: Env) returns (status: LookupStatus)
      modifies this
      ensures (View(), status) == Continue(old(View()), round, env)
    {
      hide SendRound, StartEndgame;
      if inEndgame { return Searching; }
      var base := 0;
      if round.Some? {
        status := SendRequests(round.value, env);
        if status.Failed? { return; }
        base := |round.value|;
      }
      status := Searching;
      if active == map[] {
        status := StartEndgameRound(env, base);
      }
    }

    /** `current_lookup_status`. */
    method CurrentLookupStatus() returns (status: LookupStatus)
      ensures status == CurrentStatus(View())
    {
      status := if inEndgame || active != map[] then Searching else Completed;
    }

    /** The fold for the next distance to beat. */
    method NextDistance(cs: seq<Contact>, toBeat: Hash) returns (best: Hash)
      ensures best == NextDist(cs, target, toBeat)
    {
      best := toBeat;
      assert cs[..0] == [];
      for i := 0 to |cs|
        invariant best == NextDist(cs[..i], target, toBeat)
      {
        var d := Dist(target, cs[i]);
        assert cs[..i + 1][..i] == cs[..i];
        if Lt(d, best) { best := d; }
      }
      assert cs[..|cs|] == cs;
    }

    method ListNodes(ns: seq<Contact>, picks: seq<(Contact, bool)>)
      modifies this`sorted
      ensures sorted == PushNodes(old(sorted), target, ns, picks)
    {
      assert ns[..0] == [];
      for i := 0 to |ns|
        invariant sorted == PushNodes(old(sorted), target, ns[..i], picks)
      {
        InsertSortedNode(ns[i], WillPing(picks, ns[i]));
        assert ns[..i + 1][..i] == ns[..i];
      }
      assert ns[..|ns|] == ns;
    }

    /** `recv_response`. */
    method Respond(id: TransId, from: Contact, token: Option<Token>, info: Info, env: Env) returns (status: LookupStatus)
      modifies this
      ensures (View(), status) == RecvResponse(old(View()), id, from, token, info, env)
    {
      hide PushNodes, PickNodes, NextDist, UsedPicks, Unrequested, Continue, Lt;
      if id !in active { status := CurrentLookupStatus(); return; }
      var toBeat := active[id];
      active := active - {id};
      if token.Some? { tokens := tokens[from := token.value]; }
      if info.Values? { recvValues := true; }
      var round: Option<seq<(Contact, Hash)>> := None;
      if !info.Values? {
        var candidates := Unrequested(info.ns, requested);
        var next := NextDistance(candidates, toBeat);
        if Lt(next, toBeat) {
          var picks := PickIterateNodes(candidates, target);
          ListNodes(info.ns, picks);
          round := Some(UsedPicks(picks, next, 0));
        } else {
          ListNodes(info.ns, []);
        }
      }
      assert (View(), round) == Absorb(old(View()), id, from, token, info);
      status := ContinueRounds(round, env);
      if status.Failed? { return; }
      if info.Nodes? { status := CurrentLookupStatus(); } else { status := GotValues(info.vs); }
    }

    /** `recv_timeout`. */
    method TimeOut(id: TransId, env: Env) returns (status: LookupStatus)
      modifies this
      ensures (View(), status) == RecvTimeout(old(View()), id, env)
    {
      hide Continue;
      if id !in active { status := CurrentLookupStatus(); return; }
      active := active - {id};
      status := ContinueRounds(None, env);
      if status.Failed? { return; }
      status := CurrentLookupStatus();
    }

    /** `recv_finished`: the announces are returned in the order they are sent. */
    method Finish(sends: nat -> bool) returns (sent: seq<(Entry, Token)>, status: LookupStatus)
      modifies this`active, this`inEndgame
      ensures Finished(View(), sent, status) == RecvFinished(old(View()), sends)
    {
      var fatalError := false;
      sent := [];
      if willAnnounce {
        var i := 0;
        while i < |sorted| && |sent| < ANNOUNCE_PICK_NUM
          invariant 0 <= i <= |sorted| && |sent| <= ANNOUNCE_PICK_NUM
          invariant sent + Announces(sorted, tokens, i, ANNOUNCE_PICK_NUM - |sent|)
                 == Announces(sorted, tokens, 0, ANNOUNCE_PICK_NUM)
          invariant fatalError <==> !AllSent(sends, |sent|)
        {
          if sorted[i].node in tokens {
            if !sends(|sent|) { fatalError := true; }
            sent := sent + [(sorted[i], tokens[sorted[i].node])];
          }
          i := i + 1;
        }
        assert Announces(sorted, tokens, i, ANNOUNCE_PICK_NUM - |sent|) == [];
        assert sent == Announces(sorted, tokens, 0, ANNOUNCE_PICK_NUM);
      }
      active := map[];
      inEndgame := false;
      if fatalError { status := Failed; } else { status := CurrentLookupStatus(); }
    }
  }
}
