/** What the endgame is for: when a lookup without values gives up searching, every listed node has been
    asked. */
module LookupEndgame {
  import opened Common
  import opened ShaHash
  import opened LookupNodes
  import opened Lookup
  import opened LookupRuns

  /** The node unused pick slots hold. Being found there marks it although it is not asked. */
  const PLACEHOLDER: Contact := DUMMY.0

  predicate MarkedIn(s: seq<Entry>, c: Contact) {
    exists i :: 0 <= i < |s| && s[i].pinged && s[i].node == c
  }

  predicate Wanted(round: seq<(Contact, Hash)>, c: Contact) {
    exists k :: 0 <= k < |round| && round[k].0 == c
  }

  /** Marked nodes were asked, and asked nodes are listed. */
  ghost predicate Books(s: State) {
    && (forall c :: MarkedIn(s.sorted, c) ==> c in s.asked || c == PLACEHOLDER)
    && (forall c :: c in s.asked ==> Listed(s.sorted, c))
  }

  // ---------------------------------------------------------------- listing

  lemma InsertMarks(s: seq<Entry>, target: Hash, node: Contact, pinged: bool, c: Contact)
    ensures var r := InsertNode(s, target, node, pinged);
      && (MarkedIn(r, c) ==> MarkedIn(s, c) || (pinged && c == node))
      && (Listed(r, c) <==> Listed(s, c) || c == node)
  {
    var at := SearchDist(s, Dist(target, node), 0, |s|);
    var e := Entry(Dist(target, node), node, pinged);
    var r := InsertNode(s, target, node, pinged);
    hide SearchDist, Dist;
    if at.Missing? || s[at.index].node != node {
      InsertAtIndex(s, at.index, e);
      hide InsertAt;
      forall i | 0 <= i < |s|
        ensures r[if i < at.index then i else i + 1] == s[i]
      {}
    }
  }

  lemma {:induction false} PushMarks(s: seq<Entry>, target: Hash, ns: seq<Contact>, picks: seq<(Contact, bool)>, c: Contact)
    ensures var r := PushNodes(s, target, ns, picks);
      && (MarkedIn(r, c) ==> MarkedIn(s, c) || WillPing(picks, c))
      && (Listed(r, c) <==> Listed(s, c) || c in ns)
  {
    hide InsertNode, MarkedIn, Listed, WillPing;
    if |ns| > 0 {
      var (init, last) := (ns[..|ns| - 1], ns[|ns| - 1]);
      PushMarks(s, target, init, picks, c);
      InsertMarks(PushNodes(s, target, init, picks), target, last, WillPing(picks, last), c);
      assert ns == init + [last];
    }
  }

  /** A node listed for the first time is marked if it will be asked. */
  lemma InsertMarksNew(s: seq<Entry>, target: Hash, node: Contact, pinged: bool, c: Contact)
    ensures var r := InsertNode(s, target, node, pinged);
      && (MarkedIn(s, c) ==> MarkedIn(r, c))
      && (pinged && !Listed(s, node) ==> MarkedIn(r, node))
  {
    var at := SearchDist(s, Dist(target, node), 0, |s|);
    var r := InsertNode(s, target, node, pinged);
    hide SearchDist, Dist;
    if at.Missing? || s[at.index].node != node {
      InsertAtIndex(s, at.index, Entry(Dist(target, node), node, pinged));
      hide InsertAt;
      assert r[at.index].node == node && r[at.index].pinged == pinged;
      forall i | 0 <= i < |s|
        ensures r[if i < at.index then i else i + 1] == s[i]
      {}
    }
  }

  lemma {:induction false} PushMarksNew(s: seq<Entry>, target: Hash, ns: seq<Contact>, picks: seq<(Contact, bool)>, c: Contact)
    requires c in ns && !Listed(s, c) && WillPing(picks, c)
    ensures MarkedIn(PushNodes(s, target, ns, picks), c)
  {
    hide InsertNode, MarkedIn, Listed, WillPing;
    var (init, last) := (ns[..|ns| - 1], ns[|ns| - 1]);
    var before := PushNodes(s, target, init, picks);
    assert ns == init + [last];
    InsertMarksNew(before, target, last, WillPing(picks, last), c);
    if c in init {
      PushMarksNew(s, target, init, picks, c);
    } else {
      PushMarks(s, target, init, picks, c);
    }
  }

  // ---------------------------------------------------------------- picking

  /** A used slot holds a candidate, an unused one the placeholder. */
  predicate SlotFrom(cs: seq<Contact>, slot: (Contact, bool)) {
    if slot.1 then slot.0 in cs else slot.0 == PLACEHOLDER
  }

  predicate SlotsFrom(cs: seq<Contact>, p: Picks) {
    SlotFrom(cs, p[0]) && SlotFrom(cs, p[1]) && SlotFrom(cs, p[2])
  }

  lemma {:induction false} UnusedIsPlaceholder(cs: seq<Contact>, target: Hash)
    ensures SlotsFrom(cs, PickNodes(cs, target))
  {
    if |cs| > 0 {
      var (init, last) := (cs[..|cs| - 1], cs[|cs| - 1]);
      hide SlotsFrom, InsertPick;
      UnusedIsPlaceholder(init, target);
      PickKeepsSlots(init, PickNodes(init, target), target, last);
      assert cs == init + [last];
    }
  }

  lemma PickKeepsSlots(cs: seq<Contact>, p: Picks, target: Hash, c: Contact)
    requires SlotsFrom(cs, p)
    ensures SlotsFrom(cs + [c], InsertPick(p, target, c, 0))
  {
    InsertPickUnrolled(p, target, c);
    hide InsertPick, Takes;
    assert c in cs + [c];
  }

  lemma {:induction false} UsedAreWanted(p: Picks, d: Hash, i: nat, c: Contact)
    requires i <= ITERATIVE_PICK_NUM
    ensures Wanted(UsedPicks(p, d, i), c) <==> UsedFrom(p, i, c)
    decreases ITERATIVE_PICK_NUM - i
  {
    if i < ITERATIVE_PICK_NUM {
      UsedStep(p, i, c);
      hide Wanted, UsedFrom;
      UsedAreWanted(p, d, i + 1, c);
      var (rest, all) := (UsedPicks(p, d, i + 1), UsedPicks(p, d, i));
      assert all == if p[i].1 then [(p[i].0, d)] + rest else rest;
      WantedFirst((p[i].0, d), rest, c);
    }
  }

  predicate UsedFrom(p: Picks, i: nat, c: Contact) {
    exists j :: i <= j < ITERATIVE_PICK_NUM && p[j].1 && p[j].0 == c
  }

  lemma UsedStep(p: Picks, i: nat, c: Contact)
    requires i < ITERATIVE_PICK_NUM
    ensures UsedFrom(p, i, c) <==> (p[i].1 && p[i].0 == c) || UsedFrom(p, i + 1, c)
  {}

  lemma WantedFirst(first: (Contact, Hash), rest: seq<(Contact, Hash)>, c: Contact)
    ensures Wanted([first] + rest, c) <==> first.0 == c || Wanted(rest, c)
  {
    var all := [first] + rest;
    if Wanted(rest, c) {
      var k :| 0 <= k < |rest| && rest[k].0 == c;
      assert all[k + 1].0 == c;
    }
    assert all[0] == first;
  }

  lemma PicksAreAskedOrPlaceholder(cs: seq<Contact>, target: Hash, d: Hash, c: Contact)
    ensures var (p, round) := (PickNodes(cs, target), UsedPicks(PickNodes(cs, target), d, 0));
      && (WillPing(p, c) ==> Wanted(round, c) || c == PLACEHOLDER)
      && (Wanted(round, c) ==> c in cs)
  {
    UnusedIsPlaceholder(cs, target);
    var p := PickNodes(cs, target);
    hide PickNodes, UsedPicks, Wanted;
    UsedAreWanted(p, d, 0, c);
    if WillPing(p, c) {
      var i :| 0 <= i < |p| && p[i].0 == c;
      SlotAt(cs, p, i);
    }
    if Wanted(UsedPicks(p, d, 0), c) {
      var i :| 0 <= i < ITERATIVE_PICK_NUM && p[i].1 && p[i].0 == c;
      SlotAt(cs, p, i);
    }
  }

  lemma SlotAt(cs: seq<Contact>, p: Picks, i: nat)
    requires SlotsFrom(cs, p) && i < ITERATIVE_PICK_NUM
    ensures SlotFrom(cs, p[i])
  {
    if i == 0 {} else if i == 1 {} else {}
  }

  // ---------------------------------------------------------------- asking

  /** A round that fails nowhere asks everyone it wants, and nobody else. */
  lemma {:induction false} RoundAsks(s: State, round: seq<(Contact, Hash)>, env: Env, k: nat, c: Contact)
    requires k <= |round| && !SendRound(s, round, env, k).1.Failed?
    ensures c in SendRound(s, round, env, k).0.asked <==> c in s.asked || Wanted(round[k..], c)
    decreases |round| - k
  {
    if k < |round| {
      var s1 := s.(active := s.active[env.ids(k) := round[k].1], requested := s.requested + {round[k].0},
                   asked := s.asked + [round[k].0]);
      RoundAsks(s1, round, env, k + 1, c);
      assert round[k..] == [round[k]] + round[k + 1..];
      WantedFirst(round[k], round[k + 1..], c);
      hide SendRound, Wanted;
    }
  }

  /** The nodes of unmarked entries from i on. */
  function Unmarked(s: seq<Entry>, i: nat): seq<Contact>
    requires i <= |s|
    decreases |s| - i
  {
    if i == |s| then []
    else if s[i].pinged then Unmarked(s, i + 1)
    else [s[i].node] + Unmarked(s, i + 1)
  }

  lemma {:induction false} UnmarkedAfter(s: seq<Entry>, s': seq<Entry>, i: nat)
    requires i <= |s| == |s'| && s[i..] == s'[i..]
    ensures Unmarked(s, i) == Unmarked(s', i)
    decreases |s| - i
  {
    if i < |s| {
      assert s[i] == s[i..][0] && s'[i] == s'[i..][0];
      assert s[i + 1..] == s[i..][1..] && s'[i + 1..] == s'[i..][1..];
      UnmarkedAfter(s, s', i + 1);
    }
  }

  /** The entries from i on marked. */
  function MarkFrom(s: seq<Entry>, i: nat): seq<Entry>
    requires i <= |s|
  {
    seq(|s|, j requires 0 <= j < |s| => if j < i then s[j] else s[j].(pinged := true))
  }

  lemma MarkNext(s: seq<Entry>, i: nat)
    requires i < |s|
    ensures MarkFrom(s[i := s[i].(pinged := true)], i + 1) == MarkFrom(s, i)
    ensures s[i].pinged ==> MarkFrom(s, i + 1) == MarkFrom(s, i)
  {
    if s[i].pinged { assert s[i] == s[i].(pinged := true); }
  }

  lemma {:induction false} EndgameAsksFrom(s: State, env: Env, base: nat, i: nat)
    requires i <= |s.sorted| && !SendEndgame(s, env, base, i).1.Failed?
    ensures var s' := SendEndgame(s, env, base, i).0;
      s'.asked == s.asked + Unmarked(s.sorted, i) && s'.sorted == MarkFrom(s.sorted, i)
    decreases |s.sorted| - i
  {
    hide MarkFrom;
    if i == |s.sorted| {
      MarkedAll(s.sorted);
    } else {
      MarkNext(s.sorted, i);
      if s.sorted[i].pinged {
        EndgameAsksFrom(s, env, base, i + 1);
      } else {
        var s1 := s.(active := s.active[env.ids(base + i) := s.sorted[i].dist]);
        var s2 := Ask(s1, i);
        EndgameAsksFrom(s2, env, base, i + 1);
        UnmarkedAfter(s.sorted, s2.sorted, i + 1);
        hide SendEndgame;
        assert s.asked + [s.sorted[i].node] + Unmarked(s.sorted, i + 1) == s.asked + Unmarked(s.sorted, i);
      }
    }
  }

  lemma MarkedAll(s: seq<Entry>)
    ensures MarkFrom(s, |s|) == s
  {}

  predicate UnmarkedIn(s: seq<Entry>, i: nat, c: Contact) {
    exists j :: i <= j < |s| && !s[j].pinged && s[j].node == c
  }

  lemma {:induction false} UnmarkedAre(s: seq<Entry>, i: nat, c: Contact)
    requires i <= |s|
    ensures c in Unmarked(s, i) <==> UnmarkedIn(s, i, c)
    decreases |s| - i
  {
    if i < |s| {
      UnmarkedStep(s, i, c);
      hide UnmarkedIn;
      UnmarkedAre(s, i + 1, c);
    }
  }

  lemma UnmarkedStep(s: seq<Entry>, i: nat, c: Contact)
    requires i < |s|
    ensures UnmarkedIn(s, i, c) <==> (!s[i].pinged && s[i].node == c) || UnmarkedIn(s, i + 1, c)
  {}

  /** Without values, an endgame that fails nowhere asks exactly the unmarked nodes, closest first, and leaves
      every entry marked. */
  lemma EndgameAsks(s: State, env: Env, base: nat)
    requires !s.recvValues && !StartEndgame(s, env, base).1.Failed?
    ensures var s' := StartEndgame(s, env, base).0;
      s'.asked == s.asked + Unmarked(s.sorted, 0) && s'.sorted == MarkFrom(s.sorted, 0)
  {
    EndgameAsksFrom(s.(inEndgame := true), env, base + 1, 0);
  }

  /** Everyone listed has been asked, except possibly the placeholder, and nobody else. */
  ghost predicate AllAsked(s: State) {
    && (forall c :: Listed(s.sorted, c) && c != PLACEHOLDER ==> c in s.asked)
    && (forall c :: c in s.asked ==> Listed(s.sorted, c))
  }

  lemma IdleAsks(s: State, env: Env, base: nat)
    requires Books(s) && !s.inEndgame && !EndgameIfIdle(s, env, base).1.Failed?
    ensures var s' := EndgameIfIdle(s, env, base).0;
      && Books(s')
      && (s'.inEndgame && !s'.recvValues ==> AllAsked(s'))
  {
    if s.active == map[] && !s.recvValues {
      EndgameAsks(s, env, base);
      var s' := StartEndgame(s, env, base).0;
      hide StartEndgame;
      forall c
        ensures Listed(s'.sorted, c) <==> Listed(s.sorted, c)
        ensures Listed(s.sorted, c) <==> MarkedIn(s.sorted, c) || c in Unmarked(s.sorted, 0)
        ensures MarkedIn(s'.sorted, c) ==> Listed(s'.sorted, c)
      {
        UnmarkedAre(s.sorted, 0, c);
        SameListed(s.sorted, s'.sorted, c);
      }
      hide Listed, MarkedIn, Unmarked;
    }
  }

  lemma SameListed(s: seq<Entry>, s': seq<Entry>, c: Contact)
    requires |s| == |s'| && forall j :: 0 <= j < |s| ==> s'[j].node == s[j].node
    ensures Listed(s', c) <==> Listed(s, c)
  {
    if Listed(s, c) {
      var i :| 0 <= i < |s| && s[i].node == c;
      assert s'[i].node == c;
    }
  }

  // ---------------------------------------------------------------- steps and runs

  /** After the bookkeeping of a response, the marked nodes are those asked before and those of the round that
      is about to start. */
  lemma AbsorbMarks(s: State, id: TransId, from: Contact, token: Option<Token>, info: Info, c: Contact)
    requires id in s.active
    ensures var (s1, round) := Absorb(s, id, from, token, info);
      && s1.asked == s.asked && s1.inEndgame == s.inEndgame
      && (MarkedIn(s1.sorted, c) ==>
            MarkedIn(s.sorted, c) || c == PLACEHOLDER || (round.Some? && Wanted(round.value, c)))
      && (Listed(s.sorted, c) ==> Listed(s1.sorted, c))
      && (round.Some? && Wanted(round.value, c) ==> Listed(s1.sorted, c))
  {
    hide PushNodes, PickNodes, UsedPicks, NextDist, Lt, MarkedIn, Wanted, Listed;
    if !info.Values? {
      var candidates := Unrequested(info.ns, s.requested);
      var picks := PickNodes(candidates, s.target);
      PushMarks(s.sorted, s.target, info.ns, picks, c);
      PushMarks(s.sorted, s.target, info.ns, [], c);
      PicksAreAskedOrPlaceholder(candidates, s.target, NextDist(candidates, s.target, s.active[id]), c);
    }
  }

  /** A node the next round will ask is marked if the response lists it for the first time, so that the endgame
      does not ask it again. */
  lemma PickedIsMarked(s: State, id: TransId, from: Contact, token: Option<Token>, info: Info, c: Contact)
    requires id in s.active && !Listed(s.sorted, c)
    ensures var (s1, round) := Absorb(s, id, from, token, info);
      round.Some? && Wanted(round.value, c) ==> MarkedIn(s1.sorted, c)
  {
    hide PushNodes, PickNodes, NextDist, Lt, MarkedIn, Listed, Wanted;
    var (s1, round) := Absorb(s, id, from, token, info);
    if round.Some? && Wanted(round.value, c) {
      var candidates := Unrequested(info.ns, s.requested);
      var picks := PickNodes(candidates, s.target);
      var next := NextDist(candidates, s.target, s.active[id]);
      PicksAreAskedOrPlaceholder(candidates, s.target, next, c);
      UsedAreWanted(picks, next, 0, c);
      hide UsedPicks;
      assert WillPing(picks, c);
      PushMarksNew(s.sorted, s.target, info.ns, picks, c);
    }
  }

  lemma RoundKeepsBooks(s: State, round: seq<(Contact, Hash)>, env: Env)
    requires !StartRound(s, round, env).1.Failed?
    requires forall c :: MarkedIn(s.sorted, c) ==> c in s.asked || c == PLACEHOLDER || Wanted(round, c)
    requires forall c :: c in s.asked || Wanted(round, c) ==> Listed(s.sorted, c)
    ensures Books(StartRound(s, round, env).0)
  {
    hide MarkedIn, Listed, Wanted;
    var s' := StartRound(s, round, env).0;
    RoundLeaves(s, round, env, 0);
    forall c
      ensures c in s'.asked <==> c in s.asked || Wanted(round, c)
    {
      RoundAsks(s, round, env, 0, c);
      assert round[0..] == round;
    }
  }

  lemma ContinueAsks(s: State, round: Option<seq<(Contact, Hash)>>, env: Env)
    requires !s.inEndgame && !Continue(s, round, env).1.Failed?
    requires forall c :: MarkedIn(s.sorted, c) ==>
      c in s.asked || c == PLACEHOLDER || (round.Some? && Wanted(round.value, c))
    requires forall c :: c in s.asked || (round.Some? && Wanted(round.value, c)) ==> Listed(s.sorted, c)
    ensures var s' := Continue(s, round, env).0;
      && Books(s')
      && (s'.inEndgame && !s'.recvValues ==> AllAsked(s'))
  {
    hide MarkedIn, Listed, Wanted, SendRound, StartEndgame;
    if round.Some? {
      RoundKeepsBooks(s, round.value, env);
      RoundLeaves(s, round.value, env, 0);
      IdleAsks(StartRound(s, round.value, env).0, env, |round.value|);
    } else {
      IdleAsks(s, env, 0);
    }
  }

  /** Before the endgame, an event that fails nowhere keeps the books; if it starts the endgame and no values
      came, everyone listed has been asked. */
  lemma StepAsks(s: State, e: Event)
    requires !s.inEndgame && Books(s) && !Step(s, e).1.Failed?
    ensures var s' := Step(s, e).0;
      && Books(s')
      && (s'.inEndgame && !s'.recvValues ==> AllAsked(s'))
  {
    hide MarkedIn, Listed, Wanted, Absorb, Continue;
    if e.id in s.active {
      match e
      case Response(id, from, token, info, env) =>
        var (s1, round) := Absorb(s, id, from, token, info);
        forall c
          ensures MarkedIn(s1.sorted, c) ==> c in s1.asked || c == PLACEHOLDER || (round.Some? && Wanted(round.value, c))
          ensures c in s1.asked || (round.Some? && Wanted(round.value, c)) ==> Listed(s1.sorted, c)
        {
          AbsorbMarks(s, id, from, token, info, c);
        }
        assert s1.inEndgame == s.inEndgame by { AbsorbMarks(s, id, from, token, info, PLACEHOLDER); }
        ContinueAsks(s1, round, env);
      case Timeout(id, env) =>
        ContinueAsks(s.(active := s.active - {id}), None, env);
    }
  }

  lemma {:induction false} RunAsks(s: State, es: seq<Event>)
    requires Alive(s) && Books(s) && NeverFails(s, es) && !After(s, es).inEndgame
    ensures Books(After(s, es))
    decreases |es|
  {
    SearchTerminates(s, es);
    hide Step, Books, Measure;
    if |es| > 0 {
      StepAsks(s, es[0]);
      StepAlive(s, es[0]);
      RunAsks(Step(s, es[0]).0, es[1..]);
    }
  }

  lemma StartAsks(target: Hash, willAnnounce: bool, seeds: seq<Contact>, env: Env)
    requires !Start(target, willAnnounce, seeds, env).1.Failed?
    ensures Books(Start(target, willAnnounce, seeds, env).0)
  {
    var list := SeedList(seeds, target);
    NothingMarked(seeds, target);
    var (marked, round) := (MarkInitial(list), InitialRound(list, target));
    forall c
      ensures MarkedIn(marked, c) ==> Wanted(round, c)
      ensures Wanted(round, c) ==> Listed(marked, c)
    {
      if MarkedIn(marked, c) {
        var i :| 0 <= i < |marked| && marked[i].pinged && marked[i].node == c;
        assert round[i].0 == c;
      }
      if Wanted(round, c) {
        var i :| 0 <= i < |round| && round[i].0 == c;
        assert marked[i].node == c;
      }
    }
    hide SeedList, MarkInitial, InitialRound, StartRound, MarkedIn, Wanted, Listed;
    RoundKeepsBooks(State(target, willAnnounce, false, false, map[], map[], {}, marked, []), round, env);
  }

  lemma {:induction false} NothingMarked(seeds: seq<Contact>, target: Hash)
    ensures forall i :: 0 <= i < |SeedList(seeds, target)| ==> !SeedList(seeds, target)[i].pinged
  {
    if |seeds| > 0 {
      var (init, last) := (seeds[..|seeds| - 1], seeds[|seeds| - 1]);
      NothingMarked(init, target);
      var (s, r) := (SeedList(init, target), SeedList(seeds, target));
      assert r == InsertNode(s, target, last, false);
      forall i | 0 <= i < |r| ensures !r[i].pinged {
        if r[i].pinged { InsertMarks(s, target, last, false, r[i].node); assert false; }
      }
    }
  }

  /** From the start of a lookup, through any run that fails nowhere, when an event starts the endgame and no
      values came, the nodes asked are exactly the nodes listed, the placeholder apart. */
  lemma EndgameAsksEveryone(
      target: Hash, willAnnounce: bool, seeds: seq<Contact>, env: Env, es: seq<Event>, e: Event)
    requires |seeds| > 0 && !Start(target, willAnnounce, seeds, env).1.Failed?
    requires var s := Start(target, willAnnounce, seeds, env).0;
      NeverFails(s, es) && !After(s, es).inEndgame && !Step(After(s, es), e).1.Failed?
    ensures var s' := Step(After(Start(target, willAnnounce, seeds, env).0, es), e).0;
      s'.inEndgame && !s'.recvValues ==> AllAsked(s')
  {
    StartAsks(target, willAnnounce, seeds, env);
    StartsAlive(target, willAnnounce, seeds, env);
    var s := Start(target, willAnnounce, seeds, env).0;
    hide Start, Books, Step, After, NeverFails, SortedFor, AllAsked;
    RunAsks(s, es);
    StepAsks(After(s, es), e);
  }

  /** The exception is real: a placeholder that is named by a response and loses its slot to a closer node is
      marked, since an unused slot still holds it, and not asked. */
  lemma PlaceholderMarkedUnasked(target: Hash, y: Contact, d: Hash)
    requires Lt(Dist(target, y), Dist(target, PLACEHOLDER))
    ensures var picks := PickNodes([PLACEHOLDER, y], target);
      WillPing(picks, PLACEHOLDER) && !Wanted(UsedPicks(picks, d, 0), PLACEHOLDER)
  {
    var cs := [PLACEHOLDER, y];
    hide Dist, Lt;
    assert cs[..1] == [PLACEHOLDER] && [PLACEHOLDER][..0] == [];
    assert PickNodes([], target) == NO_PICKS;
    var p := PickNodes([PLACEHOLDER], target);
    assert p == [(PLACEHOLDER, true), DUMMY, DUMMY];
    var picks := PickNodes(cs, target);
    assert picks == [(y, true), DUMMY, DUMMY];
    assert picks[1].0 == PLACEHOLDER;
    assert UsedPicks(picks, d, 3) == [];
    assert UsedPicks(picks, d, 2) == [];
    assert UsedPicks(picks, d, 1) == [];
    assert UsedPicks(picks, d, 0) == [(y, d)];
  }

  // ---------------------------------------------------------------- but not everyone only once

  predicate Once(cs: seq<Contact>) {
    forall i, j :: 0 <= i < j < |cs| ==> cs[i] != cs[j]
  }

  lemma {:induction false} UnmarkedOnce(s: seq<Entry>, i: nat)
    requires Distinct(s) && i <= |s|
    ensures Once(Unmarked(s, i))
    decreases |s| - i
  {
    if i < |s| {
      UnmarkedOnce(s, i + 1);
      UnmarkedAre(s, i + 1, s[i].node);
    }
  }

  /** An endgame on a list without duplicates asks nobody twice if and only if no unmarked node was asked
      before. */
  lemma EndgameAsksOnceExactly(s: State, env: Env, base: nat)
    requires !s.recvValues && !StartEndgame(s, env, base).1.Failed? && Once(s.asked) && Distinct(s.sorted)
    ensures Once(StartEndgame(s, env, base).0.asked)
       <==> forall j :: 0 <= j < |s.sorted| && !s.sorted[j].pinged ==> s.sorted[j].node !in s.asked
  {
    EndgameAsks(s, env, base);
    UnmarkedOnce(s.sorted, 0);
    var (a, u) := (s.asked, Unmarked(s.sorted, 0));
    forall c
      ensures c in u <==> UnmarkedIn(s.sorted, 0, c)
    {
      UnmarkedAre(s.sorted, 0, c);
    }
    assert forall j :: 0 <= j < |s.sorted| && !s.sorted[j].pinged ==> UnmarkedIn(s.sorted, 0, s.sorted[j].node);
    hide StartEndgame, Unmarked, Distinct;
    OnceSplits(a, u);
  }

  lemma OnceSplits(a: seq<Contact>, b: seq<Contact>)
    requires Once(a) && Once(b)
    ensures Once(a + b) <==> forall c :: c in a ==> c !in b
  {
    if c :| c in a && c in b {
      var i :| 0 <= i < |a| && a[i] == c;
      var j :| 0 <= j < |b| && b[j] == c;
      assert (a + b)[i] == (a + b)[|a| + j];
    } else {
      forall i, j | 0 <= i < j < |a + b|
        ensures (a + b)[i] != (a + b)[j]
      {
        if i < |a| <= j { assert a[i] in a && b[j - |a|] in b; }
      }
    }
  }
}
