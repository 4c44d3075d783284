/** What holds of every run of a lookup. */
module LookupRuns {
  import opened Common
  import opened ShaHash
  import opened LookupNodes
  import opened Lookup

  // ---------------------------------------------------------------- weights of outstanding requests

  function Pow4(n: nat): (r: nat)
    ensures r > 0
  {
    if n == 0 then 1 else 4 * Pow4(n - 1)
  }

  lemma {:induction false} Pow4Grows(m: nat, n: nat)
    requires m < n
    ensures 4 * Pow4(m) <= Pow4(n)
    decreases n
  {
    if m < n - 1 { Pow4Grows(m, n - 1); }
  }

  /** What a request whose responses must beat d counts for. */
  function Weight(d: Hash): (r: nat)
    ensures r > 0
  {
    Pow4(Value(d))
  }

  /** The sum of the weights of all outstanding requests. */
  ghost function Measure(m: map<TransId, Hash>): nat
    decreases |m|
  {
    if m == map[] then 0
    else
      var k :| k in m;
      assert (m - {k}).Keys == m.Keys - {k};
      Weight(m[k]) + Measure(m - {k})
  }

  lemma {:induction false} MeasureRemove(m: map<TransId, Hash>, k: TransId)
    requires k in m
    ensures Measure(m) == Weight(m[k]) + Measure(m - {k})
    decreases |m|
  {
    hide Weight;
    var j :| j in m && Measure(m) == Weight(m[j]) + Measure(m - {j});
    if j != k {
      assert (m - {j}).Keys == m.Keys - {j};
      assert (m - {k}).Keys == m.Keys - {k};
      MeasureRemove(m - {j}, k);
      MeasureRemove(m - {k}, j);
      assert m - {j} - {k} == m - {k} - {j};
    }
  }

  lemma MeasureInsert(m: map<TransId, Hash>, k: TransId, d: Hash)
    ensures Measure(m[k := d]) <= Measure(m) + Weight(d)
  {
    hide Weight;
    var m' := m[k := d];
    MeasureRemove(m', k);
    assert m' - {k} == m - {k};
    if k in m {
      MeasureRemove(m, k);
    } else {
      assert m - {k} == m;
    }
  }

  // ---------------------------------------------------------------- one round

  /** A response beats its distance only through a node not requested before, and then slot 0 of the
      picks holds such a node at exactly the new distance to beat. */
  lemma {:induction false} NextDistIsLeast(cs: seq<Contact>, target: Hash, toBeat: Hash)
    ensures var r := NextDist(cs, target, toBeat);
      && Value(r) <= Value(toBeat)
      && (forall c :: c in cs ==> Value(r) <= Value(Dist(target, c)))
      && (r == toBeat || exists c :: c in cs && r == Dist(target, c))
  {
    hide Value, Dist, Less;
    if |cs| > 0 {
      NextDistIsLeast(cs[..|cs| - 1], target, toBeat);
      var last := cs[|cs| - 1];
      assert cs == cs[..|cs| - 1] + [last];
      var r := NextDist(cs, target, toBeat);
      var best := NextDist(cs[..|cs| - 1], target, toBeat);
      if r == best && best != toBeat {
        var c :| c in cs[..|cs| - 1] && best == Dist(target, c);
        assert c in cs;
      }
    }
  }

  lemma BeatingPick(cs: seq<Contact>, target: Hash, toBeat: Hash)
    requires Lt(NextDist(cs, target, toBeat), toBeat)
    ensures var picks := PickNodes(cs, target);
      picks[0].1 && picks[0].0 in cs && Dist(target, picks[0].0) == NextDist(cs, target, toBeat)
  {
    NextDistIsLeast(cs, target, toBeat);
    PickNodesOk(cs, target);
    hide PickNodes, NextDist, Value, Dist;
    var picks := PickNodes(cs, target);
    var next := NextDist(cs, target, toBeat);
    var c :| c in cs && next == Dist(target, c);
    LessIsNumeric(next, Dist(target, picks[0].0));
  }

  /** A round changes only the outstanding, requested and asked nodes; one that sends at least one request and
      fails nowhere leaves something outstanding. */
  lemma {:induction false} RoundLeaves(s: State, round: seq<(Contact, Hash)>, env: Env, k: nat)
    requires k <= |round|
    ensures var (s', status) := SendRound(s, round, env, k);
      && s' == s.(active := s'.active, requested := s'.requested, asked := s'.asked)
      && (!status.Failed? && |round| > 0 && (k > 0 ==> s.active != map[]) ==>
            status == Searching && s'.active != map[])
    decreases |round| - k
  {
    if k < |round| && env.timers(k) && env.sends(k) {
      var s1 := s.(active := s.active[env.ids(k) := round[k].1], requested := s.requested + {round[k].0},
                   asked := s.asked + [round[k].0]);
      assert env.ids(k) in s1.active;
      RoundLeaves(s1, round, env, k + 1);
    }
  }

  /** n requests of weight w. */
  function Copies(n: nat, w: nat): (r: nat) {
    if n == 0 then 0 else w + Copies(n - 1, w)
  }

  lemma MeasureEmpty()
    ensures Measure(map[]) == 0
  {}

  /** A round whose requests carry one distance adds at most their weight. */
  lemma {:induction false} RoundWeighs(s: State, round: seq<(Contact, Hash)>, env: Env, k: nat, d: Hash)
    requires k <= |round| && forall j :: 0 <= j < |round| ==> round[j].1 == d
    ensures Measure(SendRound(s, round, env, k).0.active) <= Measure(s.active) + Copies(|round| - k, Weight(d))
    decreases |round| - k
  {
    hide Weight, Measure;
    if k == |round| {
      assert Measure(map[]) == 0 by { MeasureEmpty(); }
    } else if env.timers(k) {
      MeasureInsert(s.active, env.ids(k), d);
      if env.sends(k) {
        var s1 := s.(active := s.active[env.ids(k) := d], requested := s.requested + {round[k].0},
                     asked := s.asked + [round[k].0]);
        RoundWeighs(s1, round, env, k + 1, d);
      }
    }
  }

  /** A response that beats its distance starts a non-empty round of at most three requests, every one
      carrying exactly the distance of the closest candidate; so the branch that clears the
      outstanding requests is not reached. */
  lemma BeatingRound(s: State, id: TransId, from: Contact, token: Option<Token>, info: Info)
    requires id in s.active && Absorb(s, id, from, token, info).1.Some?
    ensures var round := Absorb(s, id, from, token, info).1.value;
      && 0 < |round| <= ITERATIVE_PICK_NUM
      && round[0].0 in info.ns && round[0].0 !in s.requested
      && Lt(round[0].1, s.active[id])
      && (forall k :: 0 <= k < |round| ==> round[k].1 == round[0].1)
      && round[0].1 == Dist(s.target, round[0].0)
      && (forall c :: c in info.ns && c !in s.requested ==> Value(round[0].1) <= Value(Dist(s.target, c)))
  {
    var candidates := Unrequested(info.ns, s.requested);
    var toBeat := s.active[id];
    BeatingPick(candidates, s.target, toBeat);
    NextDistIsLeast(candidates, s.target, toBeat);
    hide PickNodes, NextDist, Value, Dist, PushNodes, Unrequested;
  }

  // ---------------------------------------------------------------- progress

  lemma AfterForgetting(s: State, id: TransId)
    requires id in s.active
    ensures Measure(s.active - {id}) + Weight(s.active[id]) == Measure(s.active)
  {
    MeasureRemove(s.active, id);
  }

  /** Before the endgame, a recognised event that fails nowhere either enters the endgame or strictly
      lowers the measure: one entry is replaced by at most three strictly smaller ones. */
  lemma ResponseProgress(s: State, id: TransId, from: Contact, token: Option<Token>, info: Info, env: Env)
    requires !s.inEndgame && id in s.active && !RecvResponse(s, id, from, token, info, env).1.Failed?
    ensures var s' := RecvResponse(s, id, from, token, info, env).0;
      s'.inEndgame || (s'.active != map[] && Measure(s'.active) < Measure(s.active))
  {
    hide RecvResponse, Absorb, Continue, Measure, Weight, Beats;
    AbsorbedThenContinued(s, id, from, token, info, env);
    AfterForgetting(s, id);
    var (s1, round) := Absorb(s, id, from, token, info);
    ContinueProgress(s1, round, env, s.active[id]);
  }

  lemma AbsorbedThenContinued(
      s: State, id: TransId, from: Contact, token: Option<Token>, info: Info, env: Env)
    requires !s.inEndgame && id in s.active && !RecvResponse(s, id, from, token, info, env).1.Failed?
    ensures var (s1, round) := Absorb(s, id, from, token, info);
      && s1.active == s.active - {id} && !s1.inEndgame
      && (round.Some? ==> Beats(round.value, s.active[id]))
      && !Continue(s1, round, env).1.Failed?
      && RecvResponse(s, id, from, token, info, env).0 == Continue(s1, round, env).0
  {
    var (s1, round) := Absorb(s, id, from, token, info);
    assert s1.active == s.active - {id} && !s1.inEndgame;
    hide Absorb, Continue, Lt, Value, Dist;
    if round.Some? { BeatingRound(s, id, from, token, info); }
  }

  /** A round whose requests all carry one distance closer than the one to beat. */
  predicate Beats(round: seq<(Contact, Hash)>, toBeat: Hash) {
    && 0 < |round| <= ITERATIVE_PICK_NUM
    && Lt(round[0].1, toBeat)
    && forall k :: 0 <= k < |round| ==> round[k].1 == round[0].1
  }

  lemma ContinueProgress(s: State, round: Option<seq<(Contact, Hash)>>, env: Env, toBeat: Hash)
    requires !s.inEndgame && !Continue(s, round, env).1.Failed?
    requires round.Some? ==> Beats(round.value, toBeat)
    ensures var s' := Continue(s, round, env).0;
      s'.inEndgame || (s'.active != map[] && Measure(s'.active) < Measure(s.active) + Weight(toBeat))
  {
    hide Weight, Lt, SendRound, StartEndgame;
    if round.Some? {
      var d := round.value[0].1;
      RoundLeaves(s, round.value, env, 0);
      RoundWeighs(s, round.value, env, 0, d);
      SmallerWeight(d, toBeat);
      AtMostThree(|round.value|, Weight(d));
    } else {
      EndgameEntered(s, env, 0);
    }
  }

  lemma AtMostThree(n: nat, w: nat)
    requires n <= ITERATIVE_PICK_NUM
    ensures Copies(n, w) <= 3 * w
  {
    assert Copies(1, w) == w && Copies(2, w) == 2 * w && Copies(3, w) == 3 * w;
  }

  lemma SmallerWeight(d: Hash, toBeat: Hash)
    requires Lt(d, toBeat)
    ensures 4 * Weight(d) <= Weight(toBeat)
  {
    Pow4Grows(Value(d), Value(toBeat));
  }

  lemma TimeoutProgress(s: State, id: TransId, env: Env)
    requires !s.inEndgame && id in s.active && !RecvTimeout(s, id, env).1.Failed?
    ensures var s' := RecvTimeout(s, id, env).0;
      s'.inEndgame || (s'.active != map[] && Measure(s'.active) < Measure(s.active))
  {
    AfterForgetting(s, id);
    hide Weight;
    EndgameEntered(s.(active := s.active - {id}), env, 0);
  }

  lemma {:induction false} EndgameSends(s: State, env: Env, base: nat, i: nat)
    requires i <= |s.sorted|
    ensures var s' := SendEndgame(s, env, base, i).0;
      && s'.inEndgame == s.inEndgame && s'.target == s.target && s'.tokens == s.tokens
      && s'.willAnnounce == s.willAnnounce && s'.recvValues == s.recvValues
      && |s'.sorted| == |s.sorted|
      && forall j :: 0 <= j < |s.sorted| ==>
           s'.sorted[j].dist == s.sorted[j].dist && s'.sorted[j].node == s.sorted[j].node
    decreases |s.sorted| - i
  {
    if i < |s.sorted| && !s.sorted[i].pinged && env.sends(base + i) {
      var s1 := s.(active := s.active[env.ids(base + i) := s.sorted[i].dist]);
      EndgameSends(Ask(s1, i), env, base, i + 1);
    } else if i < |s.sorted| && s.sorted[i].pinged {
      EndgameSends(s, env, base, i + 1);
    }
  }

  /** Lists agree on distances and nodes. */
  predicate SameNodes(s: seq<Entry>, s': seq<Entry>) {
    |s| == |s'| && forall j :: 0 <= j < |s| ==> s'[j].dist == s[j].dist && s'[j].node == s[j].node
  }

  lemma EndgameEntered(s: State, env: Env, base: nat)
    ensures var s' := EndgameIfIdle(s, env, base).0;
      && (s.active == map[] ==> s'.inEndgame)
      && (s.active != map[] ==> s' == s)
      && (s.inEndgame ==> s'.inEndgame)
      && s'.target == s.target && s'.tokens == s.tokens && s'.willAnnounce == s.willAnnounce
      && s'.recvValues == s.recvValues
      && SameNodes(s.sorted, s'.sorted)
  {
    hide SendEndgame;
    var s1 := s.(inEndgame := true);
    EndgameSends(s1, env, base + 1, 0);
  }

  // ---------------------------------------------------------------- every run

  datatype Event =
    | Response(id: TransId, from: Contact, token: Option<Token>, info: Info, env: Env)
    | Timeout(id: TransId, env: Env)

  function Step(s: State, e: Event): (r: (State, LookupStatus)) {
    match e
    case Response(id, from, token, info, env) => RecvResponse(s, id, from, token, info, env)
    case Timeout(id, env) => RecvTimeout(s, id, env)
  }

  function After(s: State, es: seq<Event>): State
    decreases |es|
  {
    if |es| == 0 then s else After(Step(s, es[0]).0, es[1..])
  }

  /** No call of the run reports a failure (the caller gives the lookup up when one does). */
  predicate NeverFails(s: State, es: seq<Event>)
    decreases |es|
  {
    |es| == 0 || (!Step(s, es[0]).1.Failed? && NeverFails(Step(s, es[0]).0, es[1..]))
  }

  predicate NeverCompletes(s: State, es: seq<Event>)
    decreases |es|
  {
    |es| == 0 || (!Step(s, es[0]).1.Completed? && NeverCompletes(Step(s, es[0]).0, es[1..]))
  }

  /** How many events of the run are for an outstanding request. */
  function Recognised(s: State, es: seq<Event>): nat
    decreases |es|
  {
    if |es| == 0 then 0
    else (if es[0].id in s.active then 1 else 0) + Recognised(Step(s, es[0]).0, es[1..])
  }

  /** The lookup is in its endgame or waits for something. */
  predicate Alive(s: State) {
    s.inEndgame || s.active != map[]
  }

  lemma ContinueInEndgame(s: State, round: Option<seq<(Contact, Hash)>>, env: Env)
    requires s.inEndgame
    ensures Continue(s, round, env) == (s, Searching)
  {}

  lemma StepAlive(s: State, e: Event)
    requires Alive(s) && !Step(s, e).1.Failed?
    ensures var (s', status) := Step(s, e);
      && Alive(s')
      && !status.Completed?
      && (s.inEndgame ==> s'.inEndgame)
      && (!s'.inEndgame && e.id in s.active ==> Measure(s'.active) < Measure(s.active))
      && (e.id !in s.active ==> s' == s)
  {
    if e.id in s.active && !s.inEndgame {
      match e
      case Response(id, from, token, info, env) => ResponseProgress(s, id, from, token, info, env);
      case Timeout(id, env) => TimeoutProgress(s, id, env);
    }
    hide Measure, Continue;
    if e.id in s.active && s.inEndgame {
      match e
      case Response(id, from, token, info, env) =>
        var (s1, round) := Absorb(s, id, from, token, info);
        assert s1.inEndgame;
        ContinueInEndgame(s1, round, env);
      case Timeout(id, env) =>
        ContinueInEndgame(s.(active := s.active - {id}), None, env);
    }
    hide Absorb;
  }

  /** Every run without a failure that stays out of the endgame handles at most as many recognised
      events as the measure it started with: the search phase terminates. */
  lemma {:induction false} SearchTerminates(s: State, es: seq<Event>)
    requires Alive(s) && NeverFails(s, es) && !After(s, es).inEndgame
    ensures Recognised(s, es) + Measure(After(s, es).active) <= Measure(s.active)
    ensures !s.inEndgame
    decreases |es|
  {
    hide Step, Measure;
    if |es| > 0 {
      StepAlive(s, es[0]);
      SearchTerminates(Step(s, es[0]).0, es[1..]);
    }
  }

  /** A lookup with something outstanding never reports completion before `recv_finished`. */
  lemma {:induction false} NotCompletedEarly(s: State, es: seq<Event>)
    requires Alive(s) && NeverFails(s, es)
    ensures NeverCompletes(s, es) && Alive(After(s, es))
    decreases |es|
  {
    hide Step, Measure;
    if |es| > 0 {
      StepAlive(s, es[0]);
      NotCompletedEarly(Step(s, es[0]).0, es[1..]);
    }
  }

  // ---------------------------------------------------------------- the candidate list

  lemma {:induction false} PushKeepsSorted(s: seq<Entry>, target: Hash, ns: seq<Contact>, picks: seq<(Contact, bool)>)
    requires SortedFor(s, target)
    ensures SortedFor(PushNodes(s, target, ns, picks), target)
  {
    hide SortedFor, InsertNode;
    if |ns| > 0 {
      PushKeepsSorted(s, target, ns[..|ns| - 1], picks);
      InsertNodeSorted(PushNodes(s, target, ns[..|ns| - 1], picks), target, ns[|ns| - 1], WillPing(picks, ns[|ns| - 1]));
    }
  }

  lemma SameNodesSorted(s: seq<Entry>, s': seq<Entry>, target: Hash)
    requires SortedFor(s, target) && SameNodes(s, s')
    ensures SortedFor(s', target)
  {
    hide Value, Dist;
  }

  lemma ContinueKeepsList(s: State, round: Option<seq<(Contact, Hash)>>, env: Env)
    ensures var s' := Continue(s, round, env).0;
      && s'.target == s.target && s'.tokens == s.tokens && s'.willAnnounce == s.willAnnounce
      && s'.recvValues == s.recvValues
      && SameNodes(s.sorted, s'.sorted)
  {
    hide SendRound, EndgameIfIdle;
    if !s.inEndgame {
      if round.Some? {
        RoundLeaves(s, round.value, env, 0);
        EndgameEntered(StartRound(s, round.value, env).0, env, |round.value|);
      } else {
        EndgameEntered(s, env, 0);
      }
    }
  }

  lemma AbsorbKeepsSorted(s: State, id: TransId, from: Contact, token: Option<Token>, info: Info)
    requires id in s.active && SortedFor(s.sorted, s.target)
    ensures var s' := Absorb(s, id, from, token, info).0; s'.target == s.target && SortedFor(s'.sorted, s'.target)
  {
    hide SortedFor, PushNodes, PickNodes, NextDist, Lt, UsedPicks;
    if !info.Values? {
      PushKeepsSorted(s.sorted, s.target, info.ns, []);
      PushKeepsSorted(s.sorted, s.target, info.ns, PickNodes(Unrequested(info.ns, s.requested), s.target));
    }
  }

  lemma StepKeepsSorted(s: State, e: Event)
    requires SortedFor(s.sorted, s.target)
    ensures var s' := Step(s, e).0; s'.target == s.target && SortedFor(s'.sorted, s'.target)
  {
    hide SortedFor, Absorb, Continue;
    if e.id in s.active {
      match e
      case Response(id, from, token, info, env) =>
        AbsorbKeepsSorted(s, id, from, token, info);
        var (s1, round) := Absorb(s, id, from, token, info);
        ContinueKeepsList(s1, round, env);
        SameNodesSorted(s1.sorted, Continue(s1, round, env).0.sorted, s.target);
      case Timeout(id, env) =>
        var s1 := s.(active := s.active - {id});
        ContinueKeepsList(s1, None, env);
        SameNodesSorted(s1.sorted, Continue(s1, None, env).0.sorted, s.target);
    }
  }

  /** In every run the candidate list stays sorted by the true distance from the target. */
  lemma {:induction false} RunKeepsSorted(s: State, es: seq<Event>)
    requires SortedFor(s.sorted, s.target)
    ensures After(s, es).target == s.target && SortedFor(After(s, es).sorted, s.target)
    decreases |es|
  {
    hide Step, SortedFor;
    if |es| > 0 {
      StepKeepsSorted(s, es[0]);
      RunKeepsSorted(Step(s, es[0]).0, es[1..]);
    }
  }

  lemma {:induction false} SeedListSorted(seeds: seq<Contact>, target: Hash)
    ensures SortedFor(SeedList(seeds, target), target)
    ensures |seeds| > 0 ==> |SeedList(seeds, target)| > 0
  {
    if |seeds| > 0 {
      SeedListSorted(seeds[..|seeds| - 1], target);
      InsertNodeSorted(SeedList(seeds[..|seeds| - 1], target), target, seeds[|seeds| - 1], false);
      hide SortedFor, InsertNode;
    }
  }

  /** A lookup that had a node to start from and failed nowhere starts alive, searching and sorted. */
  lemma StartsAlive(target: Hash, willAnnounce: bool, seeds: seq<Contact>, env: Env)
    requires |seeds| > 0 && !Start(target, willAnnounce, seeds, env).1.Failed?
    ensures var (s, status) := Start(target, willAnnounce, seeds, env);
      Alive(s) && status == Searching && s.target == target && SortedFor(s.sorted, target)
  {
    SeedListSorted(seeds, target);
    var list := SeedList(seeds, target);
    SameNodesSorted(list, MarkInitial(list), target);
    hide SortedFor, SeedList, SendRound, InitialRound, MarkInitial;
    var s := State(target, willAnnounce, false, false, map[], map[], {}, MarkInitial(list), []);
    RoundLeaves(s, InitialRound(list, target), env, 0);
  }
}
