/** The iterative table lookup: rounds of requests, the endgame, and the final announces. */
module Lookup {
  import opened Common
  import opened ShaHash
  import opened RoutingBucket
  import opened LookupNodes

  type TransId = nat
  type Token = seq<nat>

  /** The contact information of a get_peers response. */
  datatype Info = Nodes(ns: seq<Contact>) | Values(vs: seq<SocketAddr>) | Both(ns: seq<Contact>, vs: seq<SocketAddr>)

  datatype LookupStatus = Searching | GotValues(vs: seq<SocketAddr>) | Completed | Failed

  /** What the surroundings do during one call: the ids drawn, and which timers and sends succeed. */
  datatype Env = Env(ids: nat -> TransId, timers: nat -> bool, sends: nat -> bool)

  /** `asked` is not a field of the source: it records, oldest first, the nodes whose get_peers request went
      out through the channel. */
  datatype State = State(
    target: Hash,
    willAnnounce: bool,
    inEndgame: bool,
    recvValues: bool,
    active: map<TransId, Hash>,
    tokens: map<Contact, Token>,
    requested: set<Contact>,
    sorted: seq<Entry>,
    asked: seq<Contact>)

  /** `current_lookup_status`. */
  function CurrentStatus(s: State): LookupStatus {
    if s.inEndgame || s.active != map[] then Searching else Completed
  }

  // ---------------------------------------------------------------- rounds

  /** The body of the loop in `start_request_round`, from request k. */
  function SendRound(s: State, round: seq<(Contact, Hash)>, env: Env, k: nat): (r: (State, LookupStatus))
    requires k <= |round|
    decreases |round| - k
  {
    if k == |round| then
      if k == 0 then (s.(active := map[]), Completed) else (s, Searching)
    else if !env.timers(k) then (s, Failed)
    else
      var s1 := s.(active := s.active[env.ids(k) := round[k].1]);
      if !env.sends(k) then (s1, Failed)
      else SendRound(s1.(requested := s1.requested + {round[k].0}, asked := s1.asked + [round[k].0]), round, env, k + 1)
  }

  function StartRound(s: State, round: seq<(Contact, Hash)>, env: Env): (r: (State, LookupStatus)) {
    SendRound(s, round, env, 0)
  }

  /** The request to entry i has gone out. */
  function Ask(s: State, i: nat): State
    requires i < |s.sorted|
  {
    s.(sorted := s.sorted[i := s.sorted[i].(pinged := true)], asked := s.asked + [s.sorted[i].node])
  }

  /** Requests to every node not pinged yet; `base` counts what the call drew before. */
  function SendEndgame(s: State, env: Env, base: nat, i: nat): (r: (State, LookupStatus))
    requires i <= |s.sorted|
    decreases |s.sorted| - i
  {
    if i == |s.sorted| then (s, Searching)
    else if s.sorted[i].pinged then SendEndgame(s, env, base, i + 1)
    else
      var s1 := s.(active := s.active[env.ids(base + i) := s.sorted[i].dist]);
      if !env.sends(base + i) then (s1, Failed)
      else SendEndgame(Ask(s1, i), env, base, i + 1)
  }

  /** `start_endgame_round`. */
  function StartEndgame(s: State, env: Env, base: nat): (r: (State, LookupStatus)) {
    var s1 := s.(inEndgame := true);
    if !env.timers(base) then (s1, Failed)
    else if s.recvValues then (s1, Searching)
    else SendEndgame(s1, env, base + 1, 0)
  }

  /** Enter the endgame when no request is outstanding. */
  function EndgameIfIdle(s: State, env: Env, base: nat): (r: (State, LookupStatus)) {
    if s.active == map[] then StartEndgame(s, env, base) else (s, Searching)
  }

  // ---------------------------------------------------------------- responses

  function Unrequested(ns: seq<Contact>, requested: set<Contact>): (r: seq<Contact>)
    ensures forall c :: c in r <==> c in ns && c !in requested
  {
    if |ns| == 0 then []
    else
      var rest := Unrequested(ns[..|ns| - 1], requested);
      assert ns == ns[..|ns| - 1] + [ns[|ns| - 1]];
      if ns[|ns| - 1] in requested then rest else rest + [ns[|ns| - 1]]
  }

  /** The fold that looks for a distance closer than the one to beat. */
  function NextDist(cs: seq<Contact>, target: Hash, toBeat: Hash): Hash {
    if |cs| == 0 then toBeat
    else
      var best := NextDist(cs[..|cs| - 1], target, toBeat);
      var d := Dist(target, cs[|cs| - 1]);
      if Lt(d, best) then d else best
  }

  predicate WillPing(picks: seq<(Contact, bool)>, c: Contact) {
    exists i :: 0 <= i < |picks| && picks[i].0 == c
  }

  /** Push the nodes of a response into the sorted list. */
  function PushNodes(s: seq<Entry>, target: Hash, ns: seq<Contact>, picks: seq<(Contact, bool)>): seq<Entry> {
    if |ns| == 0 then s
    else
      var c := ns[|ns| - 1];
      InsertNode(PushNodes(s, target, ns[..|ns| - 1], picks), target, c, WillPing(picks, c))
  }

  /** The used picks, each paired with the distance its responses must beat. */
  function UsedPicks(p: Picks, toBeat: Hash, i: nat): (r: seq<(Contact, Hash)>)
    requires i <= ITERATIVE_PICK_NUM
    ensures |r| <= ITERATIVE_PICK_NUM - i
    ensures forall k :: 0 <= k < |r| ==> r[k].1 == toBeat
    ensures i < ITERATIVE_PICK_NUM && p[i].1 ==> |r| > 0 && r[0].0 == p[i].0
    decreases ITERATIVE_PICK_NUM - i
  {
    if i == ITERATIVE_PICK_NUM then []
    else (if p[i].1 then [(p[i].0, toBeat)] else []) + UsedPicks(p, toBeat, i + 1)
  }

  /** Bookkeeping of a recognised response: forget the request, keep the token, list the nodes. The
      second part is the next round, if the response beat its distance. */
  function Absorb(s: State, id: TransId, from: Contact, token: Option<Token>, info: Info)
    : (r: (State, Option<seq<(Contact, Hash)>>))
    requires id in s.active
  {
    var toBeat := s.active[id];
    var s1 := s.(active := s.active - {id},
                 tokens := if token.Some? then s.tokens[from := token.value] else s.tokens,
                 recvValues := s.recvValues || info.Values?);
    if info.Values? then (s1, None)
    else
      var candidates := Unrequested(info.ns, s.requested);
      var next := NextDist(candidates, s.target, toBeat);
      if Lt(next, toBeat) then
        var picks := PickNodes(candidates, s.target);
        (s1.(sorted := PushNodes(s.sorted, s.target, info.ns, picks)), Some(UsedPicks(picks, next, 0)))
      else
        (s1.(sorted := PushNodes(s.sorted, s.target, info.ns, [])), None)
  }

  /** Continue after the bookkeeping: the next round, then the endgame if nothing is outstanding. */
  function Continue(s: State, round: Option<seq<(Contact, Hash)>>, env: Env): (r: (State, LookupStatus)) {
    if s.inEndgame then (s, Searching)
    else if round.None? then EndgameIfIdle(s, env, 0)
    else
      var (s1, status) := StartRound(s, round.value, env);
      if status.Failed? then (s1, Failed) else EndgameIfIdle(s1, env, |round.value|)
  }

  /** `recv_response`. */
  function RecvResponse(s: State, id: TransId, from: Contact, token: Option<Token>, info: Info, env: Env)
    : (r: (State, LookupStatus))
  {
    if id !in s.active then (s, CurrentStatus(s))
    else
      var (s1, round) := Absorb(s, id, from, token, info);
      var (s2, status) := Continue(s1, round, env);
      if status.Failed? then (s2, Failed)
      else if info.Nodes? then (s2, CurrentStatus(s2))
      else (s2, GotValues(info.vs))
  }

  /** `recv_timeout`. */
  function RecvTimeout(s: State, id: TransId, env: Env): (r: (State, LookupStatus)) {
    if id !in s.active then (s, CurrentStatus(s))
    else
      var (s1, status) := Continue(s.(active := s.active - {id}), None, env);
      if status.Failed? then (s1, Failed) else (s1, CurrentStatus(s1))
  }

  // ---------------------------------------------------------------- starting and finishing

  function SeedList(seeds: seq<Contact>, target: Hash): seq<Entry> {
    if |seeds| == 0 then [] else InsertNode(SeedList(seeds[..|seeds| - 1], target), target, seeds[|seeds| - 1], false)
  }

  /** `pick_initial_nodes` marks the first four entries as requested from. */
  function MarkInitial(s: seq<Entry>): (r: seq<Entry>)
    ensures |r| == |s|
  {
    seq(|s|, i requires 0 <= i < |s| => if i < INITIAL_PICK_NUM then s[i].(pinged := true) else s[i])
  }

  function InitialRound(s: seq<Entry>, target: Hash): (r: seq<(Contact, Hash)>)
    ensures |r| == if |s| < INITIAL_PICK_NUM then |s| else INITIAL_PICK_NUM
  {
    var n := if |s| < INITIAL_PICK_NUM then |s| else INITIAL_PICK_NUM;
    seq(n, i requires 0 <= i < n => (s[i].node, Dist(target, s[i].node)))
  }

  /** `TableLookup::new`, given the nodes the routing table offers. */
  function Start(target: Hash, willAnnounce: bool, seeds: seq<Contact>, env: Env): (r: (State, LookupStatus)) {
    var list := SeedList(seeds, target);
    StartRound(State(target, willAnnounce, false, false, map[], map[], {}, MarkInitial(list), []),
               InitialRound(list, target), env)
  }

  /** The announces of `recv_finished`: from entry i on, to at most `room` nodes that gave us a token, each with
      the token of its node. */
  function Announces(s: seq<Entry>, tokens: map<Contact, Token>, i: nat, room: nat): (r: seq<(Entry, Token)>)
    requires i <= |s|
    ensures |r| <= room
    decreases |s| - i
  {
    if i == |s| || room == 0 then []
    else if s[i].node in tokens then [(s[i], tokens[s[i].node])] + Announces(s, tokens, i + 1, room - 1)
    else Announces(s, tokens, i + 1, room)
  }

  /** What `recv_finished` does: the announces it tries to send, in order, and the status it returns. */
  datatype Finished = Finished(state: State, announced: seq<(Entry, Token)>, status: LookupStatus)

  predicate AllSent(sends: nat -> bool, n: nat) {
    forall k :: 0 <= k < n ==> sends(k)
  }

  /** `recv_finished`: a failed send does not stop the others, but makes the lookup report failure. */
  function RecvFinished(s: State, sends: nat -> bool): (r: Finished) {
    var s1 := s.(active := map[], inEndgame := false);
    var announced := if s.willAnnounce then Announces(s.sorted, s.tokens, 0, ANNOUNCE_PICK_NUM) else [];
    Finished(s1, announced, if AllSent(sends, |announced|) then CurrentStatus(s1) else Failed)
  }
}
