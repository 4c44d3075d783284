/** The tokens a lookup collects and the announces it ends with. */
module LookupAnnounce {
  import opened Common
  import opened ShaHash
  import opened LookupNodes
  import opened Lookup
  import opened LookupRuns

  // ---------------------------------------------------------------- tokens

  /** Event k is a response from the node, to a request outstanding when it came, that carries a token. */
  predicate Gives(s: State, es: seq<Event>, k: nat, c: Contact) {
    && k < |es| && es[k].Response? && es[k].from == c && es[k].token.Some?
    && es[k].id in After(s, es[..k]).active
  }

  /** The last such response of the node. */
  predicate GivesLast(s: State, es: seq<Event>, k: nat, c: Contact) {
    Gives(s, es, k, c) && forall l :: k < l < |es| ==> !Gives(s, es, l, c)
  }

  lemma {:induction false} AfterLast(s: State, es: seq<Event>)
    requires |es| > 0
    ensures After(s, es) == Step(After(s, es[..|es| - 1]), es[|es| - 1]).0
    decreases |es|
  {
    hide Step;
    if |es| == 1 {
      assert es[1..] == [] && es[..0] == [];
    } else {
      AfterLast(Step(s, es[0]).0, es[1..]);
      assert es[1..][..|es| - 2] == es[..|es| - 1][1..];
    }
  }

  /** Whether the last event gives a token or not, the others do what they did before it. */
  lemma GivesBefore(s: State, es: seq<Event>, k: nat, c: Contact)
    requires |es| > 0
    ensures Gives(s, es, k, c) <==> (k < |es| - 1 && Gives(s, es[..|es| - 1], k, c)) || (k == |es| - 1 && Gives(s, es, k, c))
    ensures Gives(s, es[..|es| - 1], k, c) ==> k < |es| - 1
  {
    hide Step, After;
    if k < |es| - 1 { assert es[..k] == es[..|es| - 1][..k]; }
  }

  lemma GivesLastBefore(s: State, es: seq<Event>, k: nat, c: Contact)
    requires |es| > 0
    ensures GivesLast(s, es, k, c) <==>
      if Gives(s, es, |es| - 1, c) then k == |es| - 1 else k < |es| - 1 && GivesLast(s, es[..|es| - 1], k, c)
  {
    hide Gives;
    forall l: nat
      ensures Gives(s, es, l, c) <==> (l < |es| - 1 && Gives(s, es[..|es| - 1], l, c)) || (l == |es| - 1 && Gives(s, es, l, c))
      ensures Gives(s, es[..|es| - 1], l, c) ==> l < |es| - 1
    {
      GivesBefore(s, es, l, c);
    }
    var n := |es| - 1;
    if Gives(s, es, n, c) {
      assert k < n ==> !GivesLast(s, es, k, c);
    } else if k < n {
      forall l: nat | k < l < n
        ensures Gives(s, es[..n], l, c) <==> Gives(s, es, l, c)
      {}
    }
  }

  lemma StepTokens(s: State, e: Event)
    ensures var s' := Step(s, e).0;
      && s'.willAnnounce == s.willAnnounce
      && s'.tokens == if e.Response? && e.token.Some? && e.id in s.active then s.tokens[e.from := e.token.value] else s.tokens
  {
    hide Continue;
    if e.id in s.active {
      match e
      case Response(id, from, token, info, env) =>
        var (s1, round) := Absorb(s, id, from, token, info);
        ContinueKeepsList(s1, round, env);
      case Timeout(id, env) =>
        ContinueKeepsList(s.(active := s.active - {id}), None, env);
    }
  }

  ghost predicate Answered(s: State, es: seq<Event>, c: Contact) {
    exists k: nat :: Gives(s, es, k, c)
  }

  /** The tokens say of the node what the events say. */
  ghost predicate TokenFor(s: State, es: seq<Event>, c: Contact, tokens: map<Contact, Token>) {
    && (c in tokens <==> c in s.tokens || Answered(s, es, c))
    && forall k: nat :: GivesLast(s, es, k, c) ==> c in tokens && tokens[c] == es[k].token.value
  }

  lemma TokenForNext(s: State, es: seq<Event>, c: Contact, before: map<Contact, Token>, after: map<Contact, Token>)
    requires |es| > 0 && TokenFor(s, es[..|es| - 1], c, before)
    requires var e := es[|es| - 1];
      if Gives(s, es, |es| - 1, c) then c in after && after[c] == e.token.value
      else (c in after <==> c in before) && (c in before ==> after[c] == before[c])
    ensures TokenFor(s, es, c, after)
  {
    var (init, n) := (es[..|es| - 1], |es| - 1);
    hide Gives;
    forall k: nat
      ensures Gives(s, es, k, c) <==> (k < n && Gives(s, init, k, c)) || (k == n && Gives(s, es, k, c))
      ensures Gives(s, init, k, c) ==> k < n
      ensures GivesLast(s, es, k, c) <==> if Gives(s, es, n, c) then k == n else k < n && GivesLast(s, init, k, c)
    {
      GivesBefore(s, es, k, c);
      GivesLastBefore(s, es, k, c);
    }
    hide GivesLast;
    assert Answered(s, es, c) <==> Gives(s, es, n, c) || Answered(s, init, c) by {
      if k: nat :| Gives(s, init, k, c) { assert Gives(s, es, k, c); }
    }
  }

  /** After any run the token held for a node is the one its last such response carried. */
  lemma {:induction false} TokensAreLast(s: State, es: seq<Event>, c: Contact)
    ensures After(s, es).willAnnounce == s.willAnnounce
    ensures TokenFor(s, es, c, After(s, es).tokens)
    decreases |es|
  {
    if |es| == 0 {
      assert forall k: nat :: !Gives(s, es, k, c);
    } else {
      var (init, e) := (es[..|es| - 1], es[|es| - 1]);
      TokensAreLast(s, init, c);
      AfterLast(s, es);
      StepTokens(After(s, init), e);
      assert Gives(s, es, |es| - 1, c) <==>
        e.Response? && e.from == c && e.token.Some? && e.id in After(s, init).active;
      hide Step, After, Gives, TokenFor;
      TokenForNext(s, es, c, After(s, init).tokens, After(s, es).tokens);
    }
  }

  // ---------------------------------------------------------------- announces

  predicate AnnouncedTo(sent: seq<(Entry, Token)>, e: Entry) {
    exists k :: 0 <= k < |sent| && sent[k].0 == e
  }

  lemma AnnouncedFirst(first: (Entry, Token), rest: seq<(Entry, Token)>, e: Entry)
    ensures AnnouncedTo([first] + rest, e) <==> first.0 == e || AnnouncedTo(rest, e)
  {
    var all := [first] + rest;
    if AnnouncedTo(rest, e) {
      var k :| 0 <= k < |rest| && rest[k].0 == e;
      assert all[k + 1].0 == e;
    }
    assert all[0] == first;
  }

  predicate StandsFrom(s: seq<Entry>, i: nat, e: Entry) {
    exists j :: i <= j < |s| && s[j] == e
  }

  /** The announce goes to a listed node and carries the token held for it. */
  predicate Backed(s: seq<Entry>, tokens: map<Contact, Token>, i: nat, a: (Entry, Token)) {
    a.0.node in tokens && a.1 == tokens[a.0.node] && StandsFrom(s, i, a.0)
  }

  lemma {:induction false} AnnouncesBacked(s: seq<Entry>, tokens: map<Contact, Token>, i: nat, room: nat)
    requires i <= |s|
    ensures forall k :: 0 <= k < |Announces(s, tokens, i, room)| ==> Backed(s, tokens, i, Announces(s, tokens, i, room)[k])
    decreases |s| - i
  {
    if i < |s| && room > 0 {
      var left := if s[i].node in tokens then room - 1 else room;
      AnnouncesBacked(s, tokens, i + 1, left);
      var (r, rest) := (Announces(s, tokens, i, room), Announces(s, tokens, i + 1, left));
      forall k | 0 <= k < |r|
        ensures Backed(s, tokens, i, r[k])
      {
        if r[k] == (s[i], if s[i].node in tokens then tokens[s[i].node] else r[k].1) && s[i].node in tokens && k == 0 {
          assert StandsFrom(s, i, s[i]);
        } else {
          var l := if s[i].node in tokens then k - 1 else k;
          assert Backed(s, tokens, i + 1, rest[l]) && r[k] == rest[l];
          var j :| i + 1 <= j < |s| && s[j] == r[k].0;
          assert StandsFrom(s, i, r[k].0);
        }
      }
    }
  }

  lemma {:induction false} AnnouncesAreClosest(s: seq<Entry>, tokens: map<Contact, Token>, i: nat, room: nat)
    requires Ascending(s) && i <= |s|
    ensures var r := Announces(s, tokens, i, room);
      forall j :: i <= j < |s| && s[j].node in tokens && !AnnouncedTo(r, s[j]) ==>
        |r| == room && forall k :: 0 <= k < |r| ==> Value(r[k].0.dist) <= Value(s[j].dist)
    decreases |s| - i
  {
    hide Value, AnnouncedTo;
    if i < |s| && room > 0 {
      var r := Announces(s, tokens, i, room);
      if s[i].node in tokens {
        AnnouncesAreClosest(s, tokens, i + 1, room - 1);
        var rest := Announces(s, tokens, i + 1, room - 1);
        var first := (s[i], tokens[s[i].node]);
        forall j | i <= j < |s|
          ensures AnnouncedTo(r, s[j]) <==> s[i] == s[j] || AnnouncedTo(rest, s[j])
        {
          AnnouncedFirst(first, rest, s[j]);
        }
      } else {
        AnnouncesAreClosest(s, tokens, i + 1, room);
      }
    }
  }

  /** Finishing announces to at most eight listed nodes, each with the token held for it, and a listed token
      holder is left out only when eight others, none farther from the target, are announced to. It reports
      completion if every send succeeded and failure otherwise. */
  lemma FinishAnnounces(f: State, sends: nat -> bool)
    requires SortedFor(f.sorted, f.target)
    ensures var Finished(f', sent, status) := RecvFinished(f, sends);
      && status == (if AllSent(sends, |sent|) then Completed else Failed)
      && f'.active == map[]
      && |sent| <= ANNOUNCE_PICK_NUM
      && (!f.willAnnounce ==> sent == [])
      && (forall k :: 0 <= k < |sent| ==> Backed(f.sorted, f.tokens, 0, sent[k]))
      && (f.willAnnounce ==> forall j :: 0 <= j < |f.sorted| && f.sorted[j].node in f.tokens ==>
            Considered(sent, f.target, f.sorted[j]))
  {
    AnnouncesBacked(f.sorted, f.tokens, 0, ANNOUNCE_PICK_NUM);
    AnnouncesAreClosest(f.sorted, f.tokens, 0, ANNOUNCE_PICK_NUM);
    hide Announces, Value, Dist, AnnouncedTo;
  }

  /** The entry is announced to, or eight others are, none of them farther from the target. */
  predicate Considered(sent: seq<(Entry, Token)>, target: Hash, e: Entry) {
    || AnnouncedTo(sent, e)
    || (|sent| == ANNOUNCE_PICK_NUM
        && forall k :: 0 <= k < |sent| ==> Value(Dist(target, sent[k].0.node)) <= Value(Dist(target, e.node)))
  }

  /** From the start of a lookup through any run, every announce goes to a listed node and carries the token its
      last response gave, and a listed node that answered with a token is announced to unless eight others,
      none farther from the target, are. */
  lemma LookupAnnounces(target: Hash, willAnnounce: bool, seeds: seq<Contact>, env: Env, es: seq<Event>, sends: nat -> bool)
    ensures var s := Start(target, willAnnounce, seeds, env).0;
      var (f, sent) := (After(s, es), RecvFinished(After(s, es), sends).announced);
      && (forall i :: 0 <= i < |sent| ==> StandsFrom(f.sorted, 0, sent[i].0) && Answered(s, es, sent[i].0.node))
      && (forall i, k: nat :: 0 <= i < |sent| && GivesLast(s, es, k, sent[i].0.node) ==> sent[i].1 == es[k].token.value)
      && (willAnnounce ==> forall j :: 0 <= j < |f.sorted| && Answered(s, es, f.sorted[j].node) ==>
            Considered(sent, target, f.sorted[j]))
  {
    var s := Start(target, willAnnounce, seeds, env).0;
    StartsSorted(target, willAnnounce, seeds, env);
    hide Start, SortedFor, After, Answered, GivesLast, Considered, RecvFinished, StandsFrom;
    RunKeepsSorted(s, es);
    var f := After(s, es);
    FinishAnnounces(f, sends);
    forall c
      ensures f.willAnnounce == willAnnounce && TokenFor(s, es, c, f.tokens)
    {
      TokensAreLast(s, es, c);
    }
    assert f.willAnnounce == willAnnounce by { TokensAreLast(s, es, DUMMY.0); }
    var sent := RecvFinished(f, sends).announced;
    forall i | 0 <= i < |sent|
      ensures TokenFor(s, es, sent[i].0.node, f.tokens) && Backed(f.sorted, f.tokens, 0, sent[i])
    {}
    forall j | 0 <= j < |f.sorted| && Answered(s, es, f.sorted[j].node)
      ensures willAnnounce ==> Considered(sent, target, f.sorted[j])
    {
      assert TokenFor(s, es, f.sorted[j].node, f.tokens);
    }
  }

  lemma StartsSorted(target: Hash, willAnnounce: bool, seeds: seq<Contact>, env: Env)
    ensures var s := Start(target, willAnnounce, seeds, env).0;
      && s.target == target && s.willAnnounce == willAnnounce && s.tokens == map[] && !s.recvValues
      && SortedFor(s.sorted, target)
  {
    SeedListSorted(seeds, target);
    var list := SeedList(seeds, target);
    SameNodesSorted(list, MarkInitial(list), target);
    hide SortedFor, SeedList, SendRound, InitialRound, MarkInitial;
    RoundLeaves(State(target, willAnnounce, false, false, map[], map[], {}, MarkInitial(list), []), InitialRound(list, target), env, 0);
  }
}
