/** What a lookup reports, when it fails, and what counts as having received values. */
module LookupOutcomes {
  import opened Common
  import opened ShaHash
  import opened RoutingBucket
  import opened LookupNodes
  import opened Lookup
  import opened LookupRuns
  import opened LookupEndgame
  import opened LookupAnnounce

  // ---------------------------------------------------------------- values

  /** Values are reported if and only if a response to an outstanding request carried them and nothing failed. */
  lemma ValuesReported(s: State, e: Event, vs: seq<SocketAddr>)
    ensures Step(s, e).1 == GotValues(vs) <==>
      && e.Response? && e.id in s.active && !e.info.Nodes? && e.info.vs == vs
      && !Step(s, e).1.Failed?
  {
    hide Absorb;
    if e.id in s.active {
      match e
      case Response(id, from, token, info, env) =>
        var (s1, round) := Absorb(s, id, from, token, info);
        ContinueSearches(s1, round, env);
      case Timeout(id, env) => ContinueSearches(s.(active := s.active - {id}), None, env);
    }
  }

  lemma ContinueSearches(s: State, round: Option<seq<(Contact, Hash)>>, env: Env)
    ensures Continue(s, round, env).1.Searching? || Continue(s, round, env).1.Failed?
  {
    hide SendRound;
    if !s.inEndgame {
      var s1 := if round.Some? then StartRound(s, round.value, env).0 else s;
      EndgameSearches(s1.(inEndgame := true), env, (if round.Some? then |round.value| else 0) + 1, 0);
    }
  }

  lemma {:induction false} EndgameSearches(s: State, env: Env, base: nat, i: nat)
    requires i <= |s.sorted|
    ensures SendEndgame(s, env, base, i).1.Searching? || SendEndgame(s, env, base, i).1.Failed?
    decreases |s.sorted| - i
  {
    if i < |s.sorted| {
      if s.sorted[i].pinged {
        EndgameSearches(s, env, base, i + 1);
      } else if env.sends(base + i) {
        var s1 := s.(active := s.active[env.ids(base + i) := s.sorted[i].dist]);
        EndgameSearches(Ask(s1, i), env, base, i + 1);
      }
    }
  }

  /** Event k is a response to an outstanding request that carries values and no nodes. */
  predicate GivesValues(s: State, es: seq<Event>, k: nat) {
    k < |es| && es[k].Response? && es[k].info.Values? && es[k].id in After(s, es[..k]).active
  }

  ghost predicate ValuesCame(s: State, es: seq<Event>) {
    exists k: nat :: GivesValues(s, es, k)
  }

  lemma StepValues(s: State, e: Event)
    ensures Step(s, e).0.recvValues <==> s.recvValues || (e.Response? && e.info.Values? && e.id in s.active)
  {
    hide Continue;
    if e.id in s.active {
      match e
      case Response(id, from, token, info, env) =>
        var (s1, round) := Absorb(s, id, from, token, info);
        ContinueKeepsList(s1, round, env);
      case Timeout(id, env) => ContinueKeepsList(s.(active := s.active - {id}), None, env);
    }
  }

  /** A lookup counts as having received values if and only if such a response came. */
  lemma {:induction false} ValuesExactly(s: State, es: seq<Event>)
    requires !s.recvValues
    ensures After(s, es).recvValues <==> ValuesCame(s, es)
    decreases |es|
  {
    if |es| > 0 {
      var (init, n) := (es[..|es| - 1], |es| - 1);
      ValuesExactly(s, init);
      AfterLast(s, es);
      StepValues(After(s, init), es[n]);
      assert GivesValues(s, es, n) <==> es[n].Response? && es[n].info.Values? && es[n].id in After(s, init).active;
      hide Step, After;
      forall k: nat | k < n
        ensures GivesValues(s, es, k) <==> GivesValues(s, init, k)
      {
        assert es[..k] == init[..k];
      }
      if GivesValues(s, es, n) { assert ValuesCame(s, es); }
      if k: nat :| GivesValues(s, init, k) { assert GivesValues(s, es, k); }
    }
  }

  /** From the start of a lookup, through any run that fails nowhere: when the endgame starts, the nodes asked are
      exactly the nodes listed, the placeholder apart, unless a response with values and no nodes has come. */
  lemma EndgameAsksUnlessValues(
      target: Hash, willAnnounce: bool, seeds: seq<Contact>, env: Env, es: seq<Event>, e: Event)
    requires |seeds| > 0 && !Start(target, willAnnounce, seeds, env).1.Failed?
    requires var s := Start(target, willAnnounce, seeds, env).0;
      NeverFails(s, es) && !After(s, es).inEndgame && !Step(After(s, es), e).1.Failed?
    ensures var s := Start(target, willAnnounce, seeds, env).0;
      var s' := Step(After(s, es), e).0;
      s'.inEndgame && !ValuesCame(s, es + [e]) ==> AllAsked(s')
  {
    EndgameAsksEveryone(target, willAnnounce, seeds, env, es, e);
    var s := Start(target, willAnnounce, seeds, env).0;
    StartsSorted(target, willAnnounce, seeds, env);
    hide Start, Step, After, NeverFails, AllAsked, ValuesCame;
    ValuesExactly(s, es + [e]);
    AfterLast(s, es + [e]);
    assert (es + [e])[..|es|] == es;
  }

  // ---------------------------------------------------------------- failures

  predicate RoundFails(round: seq<(Contact, Hash)>, env: Env, k: nat) {
    exists j :: k <= j < |round| && (!env.timers(j) || !env.sends(j))
  }

  /** A round fails if and only if a timer or a send of one of its requests does. */
  lemma {:induction false} RoundFailsExactly(s: State, round: seq<(Contact, Hash)>, env: Env, k: nat)
    requires k <= |round|
    ensures SendRound(s, round, env, k).1.Failed? <==> RoundFails(round, env, k)
    decreases |round| - k
  {
    if k < |round| && env.timers(k) && env.sends(k) {
      var s1 := s.(active := s.active[env.ids(k) := round[k].1], requested := s.requested + {round[k].0},
                   asked := s.asked + [round[k].0]);
      RoundFailsExactly(s1, round, env, k + 1);
    }
  }

  predicate AskingFails(s: seq<Entry>, env: Env, base: nat, i: nat) {
    exists j :: i <= j < |s| && !s[j].pinged && !env.sends(base + j)
  }

  lemma {:induction false} AskingFailsExactly(s: State, env: Env, base: nat, i: nat)
    requires i <= |s.sorted|
    ensures SendEndgame(s, env, base, i).1.Failed? <==> AskingFails(s.sorted, env, base, i)
    decreases |s.sorted| - i
  {
    if i < |s.sorted| {
      AskingStep(s.sorted, env, base, i);
      if s.sorted[i].pinged {
        AskingFailsExactly(s, env, base, i + 1);
      } else if env.sends(base + i) {
        var s1 := s.(active := s.active[env.ids(base + i) := s.sorted[i].dist]);
        var s2 := Ask(s1, i);
        AskingFailsExactly(s2, env, base, i + 1);
        assert AskingFails(s2.sorted, env, base, i + 1) <==> AskingFails(s.sorted, env, base, i + 1) by {
          assert forall j :: i < j < |s.sorted| ==> s2.sorted[j] == s.sorted[j];
        }
      }
    }
  }

  lemma AskingStep(s: seq<Entry>, env: Env, base: nat, i: nat)
    requires i < |s|
    ensures AskingFails(s, env, base, i) <==> (!s[i].pinged && !env.sends(base + i)) || AskingFails(s, env, base, i + 1)
  {}

  predicate EndgameFails(s: State, env: Env, base: nat) {
    !env.timers(base) || (!s.recvValues && AskingFails(s.sorted, env, base + 1, 0))
  }

  /** What follows a response or a timeout fails if and only if a timer or a send of its round does, or of the
      endgame when nothing is outstanding and no round starts; in the endgame nothing fails. */
  lemma ContinueFailsExactly(s: State, round: Option<seq<(Contact, Hash)>>, env: Env)
    requires round.Some? ==> |round.value| > 0
    ensures Continue(s, round, env).1.Failed? <==>
      && !s.inEndgame
      && if round.Some? then RoundFails(round.value, env, 0) else s.active == map[] && EndgameFails(s, env, 0)
  {
    if round.Some? {
      RoundFailsExactly(s, round.value, env, 0);
      RoundLeaves(s, round.value, env, 0);
    } else {
      AskingFailsExactly(s.(inEndgame := true), env, 1, 0);
    }
    hide SendRound, SendEndgame;
  }
}
