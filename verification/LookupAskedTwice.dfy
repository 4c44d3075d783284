/** A run of a lookup in which one node is asked twice. */
module LookupAskedTwice {
  import opened Common
  import opened ShaHash
  import opened LookupNodes
  import opened Lookup
  import opened LookupRuns
  import opened LookupEndgame

  /** Timers and sends succeed, and ids are drawn from `first` on. */
  function Smooth(first: nat): Env {
    Env(k => first + k, _ => true, _ => true)
  }

  /** Three nodes in the order a, x, b of their distances. */
  predicate Between(target: Hash, a: Contact, x: Contact, b: Contact) {
    Value(Dist(target, a)) < Value(Dist(target, x)) < Value(Dist(target, b))
  }

  function EntryFor(target: Hash, c: Contact, pinged: bool): Entry {
    Entry(Dist(target, c), c, pinged)
  }

  lemma SeedTwo(target: Hash, a: Contact, x: Contact, b: Contact)
    requires Between(target, a, x, b)
    ensures SeedList([a, b], target) == [EntryFor(target, a, false), EntryFor(target, b, false)]
  {
    hide Value, Dist;
    assert [a, b][..1] == [a] && [a][..0] == [];
    var one := [EntryFor(target, a, false)];
    assert SearchDist([], Dist(target, a), 0, 0) == Missing(0);
    assert SeedList([a], target) == one;
    assert SearchDist(one, Dist(target, b), 1, 1) == Missing(1);
    assert SearchDist(one, Dist(target, b), 0, 1) == Missing(1);
  }

  function Started(target: Hash, a: Contact, b: Contact): State {
    State(target, false, false, false, map[0 := Dist(target, a), 1 := Dist(target, b)], map[], {a, b},
          [EntryFor(target, a, true), EntryFor(target, b, true)], [a, b])
  }

  /** A lookup that starts with a and b asks both. */
  lemma StartTwo(target: Hash, a: Contact, x: Contact, b: Contact)
    requires Between(target, a, x, b)
    ensures Start(target, false, [a, b], Smooth(0)) == (Started(target, a, b), Searching)
  {
    SeedTwo(target, a, x, b);
    var list := SeedList([a, b], target);
    hide SeedList, Dist, Value;
    var marked := MarkInitial(list);
    assert marked == [EntryFor(target, a, true), EntryFor(target, b, true)];
    var round := InitialRound(list, target);
    assert round == [(a, Dist(target, a)), (b, Dist(target, b))];
    hide MarkInitial, InitialRound;
    var s := State(target, false, false, false, map[], map[], {}, marked, []);
    var s1 := s.(active := map[0 := Dist(target, a)], requested := {a}, asked := [a]);
    var s2 := s.(active := map[0 := Dist(target, a), 1 := Dist(target, b)], requested := {a, b}, asked := [a, b]);
    assert s2 == s1.(active := s1.active[1 := Dist(target, b)], requested := s1.requested + {b}, asked := s1.asked + [b]);
    assert s1 == s.(active := s.active[0 := Dist(target, a)], requested := s.requested + {a}, asked := s.asked + [a]);
    assert SendRound(s2, round, Smooth(0), 2) == (s2, Searching);
    assert SendRound(s1, round, Smooth(0), 1) == (s2, Searching);
    assert SendRound(s, round, Smooth(0), 0) == (s2, Searching);
  }

  /** x, listed between the two, is found again where it stands. */
  lemma ListThird(target: Hash, a: Contact, x: Contact, b: Contact)
    requires Between(target, a, x, b)
    ensures var (ea, ex, eb) := (EntryFor(target, a, true), EntryFor(target, x, false), EntryFor(target, b, true));
      && PushNodes([ea, eb], target, [x], []) == [ea, ex, eb]
      && forall picks :: PushNodes([ea, ex, eb], target, [x], picks) == [ea, ex, eb]
  {
    hide Value, Dist;
    var (ea, ex, eb) := (EntryFor(target, a, true), EntryFor(target, x, false), EntryFor(target, b, true));
    var (two, three, d) := ([ea, eb], [ea, ex, eb], Dist(target, x));
    assert [x][..0] == [];
    assert SearchDist(two, d, 1, 1) == Missing(1);
    assert SearchDist(two, d, 0, 1) == Missing(1);
    assert SearchDist(two, d, 0, 2) == Missing(1);
    assert InsertNode(two, target, x, false) == three;
    assert SearchDist(three, d, 0, 3) == Found(1);
    forall picks
      ensures PushNodes(three, target, [x], picks) == three
    {
      assert PushNodes(three, target, [], picks) == three;
    }
    assert PushNodes(two, target, [], []) == two && !WillPing([], x);
  }

  /** With x the only candidate it is the only pick. */
  lemma OnlyPick(target: Hash, x: Contact, d: Hash)
    ensures UsedPicks(PickNodes([x], target), d, 0) == [(x, d)]
  {
    assert [x][..0] == [];
    assert PickNodes([], target) == NO_PICKS;
    var p := PickNodes([x], target);
    assert p == [(x, true), DUMMY, DUMMY];
    assert UsedPicks(p, d, 3) == [];
    assert UsedPicks(p, d, 2) == [];
    assert UsedPicks(p, d, 1) == [];
  }

  lemma OnlyCandidate(target: Hash, requested: set<Contact>, x: Contact, toBeat: Hash)
    requires x !in requested
    ensures Unrequested([x], requested) == [x]
    ensures NextDist([x], target, toBeat) == if Lt(Dist(target, x), toBeat) then Dist(target, x) else toBeat
  {
    assert [x][..0] == [];
    assert Unrequested([], requested) == [];
    assert NextDist([], target, toBeat) == toBeat;
  }

  /** The state in which a and b were asked, and x is listed and not asked. */
  function Listing(target: Hash, a: Contact, x: Contact, b: Contact, active: map<TransId, Hash>): State {
    State(target, false, false, false, active, map[], {a, b},
          [EntryFor(target, a, true), EntryFor(target, x, false), EntryFor(target, b, true)], [a, b])
  }

  /** a names x, which is farther than a: x is listed and not asked. */
  lemma FartherIsListed(target: Hash, a: Contact, x: Contact, b: Contact)
    requires Between(target, a, x, b)
    ensures Step(Start(target, false, [a, b], Smooth(0)).0, Response(0, a, None, Nodes([x]), Smooth(10)))
         == (Listing(target, a, x, b, map[1 := Dist(target, b)]), Searching)
  {
    hide Absorb, Start, Dist, Value, Listing, Started;
    StartTwo(target, a, x, b);
    FartherAbsorbed(target, a, x, b);
  }

  lemma FartherAbsorbed(target: Hash, a: Contact, x: Contact, b: Contact)
    requires Between(target, a, x, b)
    ensures var (s, s1) := (Started(target, a, b), Listing(target, a, x, b, map[1 := Dist(target, b)]));
      && 0 in s.active && 1 in s1.active && !s1.inEndgame
      && Absorb(s, 0, a, None, Nodes([x])) == (s1, None)
  {
    var s := Started(target, a, b);
    assert s.active - {0} == map[1 := Dist(target, b)] && s.active[0] == Dist(target, a);
    assert s.target == target && s.requested == {a, b} && x !in s.requested;
    hide Absorb, PushNodes, Unrequested, NextDist, Value, Dist, EntryFor;
    OnlyCandidate(target, {a, b}, x, Dist(target, a));
    AbsorbFarther(s, 0, a, x);
    ListThird(target, a, x, b);
  }

  /** A response that names one node that does not beat its distance. */
  lemma AbsorbFarther(s: State, id: TransId, from: Contact, x: Contact)
    requires id in s.active && Unrequested([x], s.requested) == [x]
    requires NextDist([x], s.target, s.active[id]) == s.active[id]
    ensures Absorb(s, id, from, None, Nodes([x]))
         == (s.(active := s.active - {id}, sorted := PushNodes(s.sorted, s.target, [x], [])), None)
  {
    hide PushNodes, Unrequested, NextDist, PickNodes, UsedPicks;
  }

  /** b names x too, which is closer than b: x is asked, and its entry stays unmarked. */
  lemma CloserIsAsked(target: Hash, a: Contact, x: Contact, b: Contact)
    requires Between(target, a, x, b)
    ensures var s := Listing(target, a, x, b, map[1 := Dist(target, b)]);
      Step(s, Response(1, b, None, Nodes([x]), Smooth(20)))
      == (s.(active := map[20 := Dist(target, x)], requested := {a, b, x}, asked := [a, b, x]), Searching)
  {
    var d := Dist(target, x);
    var s := Listing(target, a, x, b, map[1 := Dist(target, b)]);
    hide Absorb, Value, Dist, SendRound, EntryFor;
    CloserAbsorbed(target, a, x, b);
    ContinueOne(s.(active := map[]), x, d, 20);
    assert {a, b} + {x} == {a, b, x} && [a, b] + [x] == [a, b, x];
    hide Continue;
    assert 1 in s.active && 20 in map[20 := d];
  }

  lemma ContinueOne(s: State, x: Contact, d: Hash, id: TransId)
    requires s.active == map[] && !s.inEndgame
    ensures Continue(s, Some([(x, d)]), Smooth(id))
         == (s.(active := map[id := d], requested := s.requested + {x}, asked := s.asked + [x]), Searching)
  {
    RoundOfOne(s, x, d, id);
    hide SendRound, StartEndgame;
    assert id in map[id := d];
  }

  lemma CloserAbsorbed(target: Hash, a: Contact, x: Contact, b: Contact)
    requires Between(target, a, x, b)
    ensures var s := Listing(target, a, x, b, map[1 := Dist(target, b)]);
      Absorb(s, 1, b, None, Nodes([x])) == (s.(active := map[]), Some([(x, Dist(target, x))]))
  {
    var s := Listing(target, a, x, b, map[1 := Dist(target, b)]);
    assert s.active - {1} == map[] && 1 in s.active && s.active[1] == Dist(target, b);
    assert s.target == target && s.requested == {a, b} && x !in s.requested;
    hide Absorb, PushNodes, Unrequested, NextDist, Value, Dist, PickNodes, UsedPicks, EntryFor;
    OnlyCandidate(target, {a, b}, x, Dist(target, b));
    OnlyPick(target, x, Dist(target, x));
    AbsorbOne(s, 1, b, x);
    ListThird(target, a, x, b);
    assert PushNodes(s.sorted, target, [x], PickNodes([x], target)) == s.sorted;
  }

  /** A response that names one node that beats its distance. */
  lemma AbsorbOne(s: State, id: TransId, from: Contact, x: Contact)
    requires id in s.active && Unrequested([x], s.requested) == [x]
    requires NextDist([x], s.target, s.active[id]) == Dist(s.target, x) && Lt(Dist(s.target, x), s.active[id])
    ensures var picks := PickNodes([x], s.target);
      Absorb(s, id, from, None, Nodes([x]))
      == (s.(active := s.active - {id}, sorted := PushNodes(s.sorted, s.target, [x], picks)),
          Some(UsedPicks(picks, Dist(s.target, x), 0)))
  {
    hide PushNodes, Unrequested, NextDist, Lt, Dist, PickNodes, UsedPicks;
  }

  lemma RoundOfOne(s: State, x: Contact, d: Hash, id: TransId)
    requires s.active == map[]
    ensures SendRound(s, [(x, d)], Smooth(id), 0)
         == (s.(active := map[id := d], requested := s.requested + {x}, asked := s.asked + [x]), Searching)
  {
    var s1 := s.(active := map[id := d], requested := s.requested + {x}, asked := s.asked + [x]);
    assert SendRound(s1, [(x, d)], Smooth(id), 1) == (s1, Searching);
  }

  /** x does not answer: the endgame starts and asks the unmarked x once more. */
  lemma UnmarkedIsAskedAgain(target: Hash, a: Contact, x: Contact, b: Contact)
    ensures var s := Listing(target, a, x, b, map[20 := Dist(target, x)]).(requested := {a, b, x}, asked := [a, b, x]);
      var (s', status) := Step(s, Timeout(20, Smooth(30)));
      !status.Failed? && s'.inEndgame && s'.asked == [a, b, x, x]
  {
    var s := Listing(target, a, x, b, map[20 := Dist(target, x)]).(requested := {a, b, x}, asked := [a, b, x]);
    hide Dist;
    assert s.active - {20} == map[];
    var s1 := s.(active := map[], inEndgame := true);
    EndgameNeverFails(s1, Smooth(30), 1, 0);
    EndgameAsksFrom(s1, Smooth(30), 1, 0);
    assert Unmarked(s.sorted, 3) == [] && Unmarked(s.sorted, 2) == [];
    assert Unmarked(s.sorted, 1) == [x] && Unmarked(s.sorted, 0) == [x];
    hide SendEndgame;
  }

  lemma {:induction false} EndgameNeverFails(s: State, env: Env, base: nat, i: nat)
    requires i <= |s.sorted| && forall k :: env.sends(k)
    ensures SendEndgame(s, env, base, i).1 == Searching && SendEndgame(s, env, base, i).0.inEndgame == s.inEndgame
    decreases |s.sorted| - i
  {
    if i < |s.sorted| {
      if s.sorted[i].pinged {
        EndgameNeverFails(s, env, base, i + 1);
      } else {
        var s1 := s.(active := s.active[env.ids(base + i) := s.sorted[i].dist]);
        EndgameNeverFails(Ask(s1, i), env, base, i + 1);
      }
    }
  }

  /** Everyone is asked, but not everyone only once: listing a node again does not mark it. A node listed
      unmarked that a later response makes a pick of is asked in that round and again in the endgame. */
  lemma AskedTwice(target: Hash, a: Contact, x: Contact, b: Contact)
    requires Between(target, a, x, b)
    ensures var s := Start(target, false, [a, b], Smooth(0)).0;
      var es := [Response(0, a, None, Nodes([x]), Smooth(10)), Response(1, b, None, Nodes([x]), Smooth(20)),
                 Timeout(20, Smooth(30))];
      NeverFails(s, es) && After(s, es).asked == [a, b, x, x]
  {
    FartherIsListed(target, a, x, b);
    CloserIsAsked(target, a, x, b);
    UnmarkedIsAskedAgain(target, a, x, b);
    hide Start, Step, Dist, Value;
    var s := Start(target, false, [a, b], Smooth(0)).0;
    var es := [Response(0, a, None, Nodes([x]), Smooth(10)), Response(1, b, None, Nodes([x]), Smooth(20)),
               Timeout(20, Smooth(30))];
    assert es[1..] == [es[1], es[2]] && es[1..][1..] == [es[2]] && es[1..][1..][1..] == [];
    var s1 := Step(s, es[0]).0;
    var s2 := Step(s1, es[1]).0;
    var s3 := Step(s2, es[2]).0;
    assert After(s3, []) == s3 && NeverFails(s3, []);
    assert After(s2, [es[2]]) == s3 && NeverFails(s2, [es[2]]);
    assert After(s1, es[1..]) == s3 && NeverFails(s1, es[1..]);
  }
}
