/** Announce tokens: valid under the current or the last of two lazily rotated secrets. */
module TokenStore {
  import opened RoutingBucket

  const REFRESH_INTERVAL_MINS := 10
  const REFRESH_INTERVAL: Time := REFRESH_INTERVAL_MINS * MINUTE

  type IpAddr = nat

  /** A secret is known by the order in which it was drawn, so that no two draws coincide. */
  type Secret = nat

  /** The digest of an address and a secret, taken as determining both. */
  datatype Token = Token(addr: IpAddr, secret: Secret)

  datatype Store = Store(curr: Secret, last: Secret, lastRefresh: Time, drawn: nat)

  /** Integer division as Rust rounds it, towards zero. */
  function TruncDiv(a: int, b: int): int
    requires b > 0
  {
    if a >= 0 then a / b else -((-a) / b)
  }

  /** `intervals_passed`. */
  function IntervalsPassed(lastRefresh: Time, now: Time): int {
    TruncDiv(TruncDiv(now - lastRefresh, MINUTE), REFRESH_INTERVAL_MINS)
  }

  /** The two clock readings of a call: the one intervals are counted with, and the later one a refresh is
      stamped with. */
  datatype Clock = Clock(seen: Time, stamped: Time)

  /** `refresh_check`. */
  function Refresh(s: Store, c: Clock): Store {
    var passed := IntervalsPassed(s.lastRefresh, c.seen);
    if passed == 0 then s
    else if passed == 1 then Store(s.drawn, s.curr, c.stamped, s.drawn + 1)
    else Store(s.drawn + 1, s.drawn, c.stamped, s.drawn + 2)
  }

  /** `checkout`. */
  function Checkout(s: Store, addr: IpAddr, c: Clock): (r: (Store, Token)) {
    var s' := Refresh(s, c);
    (s', Token(addr, s'.curr))
  }

  /** `checkin`. */
  function Checkin(s: Store, addr: IpAddr, token: Token, c: Clock): (r: (Store, bool)) {
    var s' := Refresh(s, c);
    (s', token == Token(addr, s'.curr) || token == Token(addr, s'.last))
  }

  /** `TokenStore::new`. */
  function Fresh(now: Time): Store {
    Store(0, 1, now, 2)
  }

  datatype Op = CheckoutOp(addr: IpAddr, clock: Clock) | CheckinOp(addr: IpAddr, token: Token, clock: Clock)

  function Apply(s: Store, op: Op): Store {
    match op
    case CheckoutOp(addr, c) => Checkout(s, addr, c).0
    case CheckinOp(addr, token, c) => Checkin(s, addr, token, c).0
  }

  function Run(s: Store, ops: seq<Op>): Store {
    if |ops| == 0 then s else Apply(Run(s, ops[..|ops| - 1]), ops[|ops| - 1])
  }

  /** All readings of the operations come in order between the two instants. */
  predicate Between(from: Time, ops: seq<Op>, to: Time) {
    && from <= to
    && (forall i :: 0 <= i < |ops| ==> from <= ops[i].clock.seen <= ops[i].clock.stamped <= to)
    && (forall i, j :: 0 <= i < j < |ops| ==> ops[i].clock.stamped <= ops[j].clock.seen)
  }

  /** The two readings of each operation are at most the gap apart. */
  predicate GapsWithin(ops: seq<Op>, gap: Time) {
    forall i :: 0 <= i < |ops| ==> ops[i].clock.stamped - ops[i].clock.seen <= gap
  }

  /** Both secrets were drawn, and the last refresh is not in the future. */
  predicate Valid(s: Store, clock: Time) {
    s.curr < s.drawn && s.last < s.drawn && s.curr != s.last && s.lastRefresh <= clock
  }

  lemma IntervalBounds(lastRefresh: Time, now: Time)
    requires lastRefresh <= now
    ensures IntervalsPassed(lastRefresh, now) == 0 <==> now - lastRefresh < REFRESH_INTERVAL
    ensures IntervalsPassed(lastRefresh, now) == 1 <==> REFRESH_INTERVAL <= now - lastRefresh < 2 * REFRESH_INTERVAL
  {
    var (d, m) := (now - lastRefresh, (now - lastRefresh) / MINUTE);
    assert m * MINUTE <= d < (m + 1) * MINUTE;
  }

  /** A token is accepted exactly while its secret is current and less than two intervals old, or last
      and followed by less than one interval. */
  lemma CheckinExact(s: Store, addr: IpAddr, token: Token, c: Clock)
    requires Valid(s, c.seen) && token.secret < s.drawn
    ensures Checkin(s, addr, token, c).1 <==>
      && token.addr == addr
      && ((token.secret == s.curr && c.seen - s.lastRefresh < 2 * REFRESH_INTERVAL)
          || (token.secret == s.last && c.seen - s.lastRefresh < REFRESH_INTERVAL))
  {
    IntervalBounds(s.lastRefresh, c.seen);
    hide IntervalsPassed;
  }

  /** Where a secret that became current at time r can be: still current, last since some refresh that was
      seen one to two intervals later and stamped within the gap of that, or gone for good. */
  predicate Tracks(s: Store, secret: Secret, r: Time, gap: Time) {
    && secret < s.drawn
    && (secret == s.curr ==> s.lastRefresh == r)
    && (secret == s.last ==> r + REFRESH_INTERVAL <= s.lastRefresh < r + 2 * REFRESH_INTERVAL + gap)
  }

  lemma RefreshTracks(s: Store, secret: Secret, r: Time, gap: Time, c: Clock)
    requires Valid(s, c.seen) && Tracks(s, secret, r, gap) && c.seen <= c.stamped <= c.seen + gap
    ensures Valid(Refresh(s, c), c.stamped) && Tracks(Refresh(s, c), secret, r, gap)
  {
    IntervalBounds(s.lastRefresh, c.seen);
    hide IntervalsPassed;
  }

  /** Until two intervals after the secret became current, it is current or last. */
  predicate Usable(s: Store, secret: Secret) {
    secret == s.curr || secret == s.last
  }

  lemma RefreshUsable(s: Store, secret: Secret, r: Time, gap: Time, c: Clock)
    requires Valid(s, c.seen) && Tracks(s, secret, r, gap) && Usable(s, secret)
    requires c.seen < r + 2 * REFRESH_INTERVAL
    ensures Usable(Refresh(s, c), secret)
  {
    IntervalBounds(s.lastRefresh, c.seen);
    hide IntervalsPassed;
  }

  lemma {:induction false} RunTracks(s: Store, secret: Secret, r: Time, gap: Time, from: Time, ops: seq<Op>, to: Time)
    requires Valid(s, from) && Tracks(s, secret, r, gap) && Between(from, ops, to) && GapsWithin(ops, gap)
    ensures Valid(Run(s, ops), to) && Tracks(Run(s, ops), secret, r, gap)
    ensures Usable(s, secret) && to < r + 2 * REFRESH_INTERVAL ==> Usable(Run(s, ops), secret)
  {
    hide Refresh;
    if |ops| > 0 {
      var (init, op) := (ops[..|ops| - 1], ops[|ops| - 1]);
      RunTracks(s, secret, r, gap, from, init, op.clock.seen);
      RefreshTracks(Run(s, init), secret, r, gap, op.clock);
      if Usable(s, secret) && to < r + 2 * REFRESH_INTERVAL {
        RefreshUsable(Run(s, init), secret, r, gap, op.clock);
      }
    }
  }

  lemma CheckoutTracks(s: Store, addr: IpAddr, c: Clock, gap: Time)
    requires Valid(s, c.seen) && c.seen <= c.stamped
    ensures var (s', token) := Checkout(s, addr, c);
      && Valid(s', c.stamped) && Tracks(s', token.secret, s'.lastRefresh, gap)
      && c.seen - REFRESH_INTERVAL < s'.lastRefresh <= c.stamped
      && s'.lastRefresh == if c.seen - s.lastRefresh < REFRESH_INTERVAL then s.lastRefresh else c.stamped
  {
    IntervalBounds(s.lastRefresh, c.seen);
    hide IntervalsPassed;
  }

  lemma {:induction false} SomeGap(ops: seq<Op>) returns (gap: Time)
    ensures GapsWithin(ops, gap)
  {
    if |ops| == 0 {
      gap := 0;
    } else {
      gap := SomeGap(ops[..|ops| - 1]);
      var c := ops[|ops| - 1].clock;
      if gap < c.stamped - c.seen { gap := c.stamped - c.seen; }
    }
  }

  /** A token is accepted at every check-in up to ten minutes after its checkout, whatever other
      operations happen in between and however far apart their clock readings are. */
  lemma AcceptedForTenMinutes(s: Store, addr: IpAddr, issued: Clock, ops: seq<Op>, c: Clock)
    requires Valid(s, issued.seen) && issued.seen <= issued.stamped && Between(issued.stamped, ops, c.seen)
    requires c.seen <= issued.seen + REFRESH_INTERVAL
    ensures var (s', token) := Checkout(s, addr, issued); Checkin(Run(s', ops), addr, token, c).1
  {
    var gap := SomeGap(ops);
    CheckoutTracks(s, addr, issued, gap);
    var (s', token) := Checkout(s, addr, issued);
    hide Checkout, Refresh;
    RunTracks(s', token.secret, s'.lastRefresh, gap, issued.stamped, ops, c.seen);
    RefreshUsable(Run(s', ops), token.secret, s'.lastRefresh, gap, c);
  }

  /** A token whose checkout refreshed the store, after any idle time, is accepted for twenty minutes from the
      stamp of that refresh. */
  lemma AcceptedTwentyMinutesFromRefresh(s: Store, addr: IpAddr, issued: Clock, ops: seq<Op>, c: Clock)
    requires Valid(s, issued.seen) && issued.seen <= issued.stamped && Between(issued.stamped, ops, c.seen)
    requires issued.seen - s.lastRefresh >= REFRESH_INTERVAL && c.seen < issued.stamped + 2 * REFRESH_INTERVAL
    ensures var (s', token) := Checkout(s, addr, issued); Checkin(Run(s', ops), addr, token, c).1
  {
    var gap := SomeGap(ops);
    CheckoutTracks(s, addr, issued, gap);
    var (s', token) := Checkout(s, addr, issued);
    hide Checkout, Refresh;
    RunTracks(s', token.secret, s'.lastRefresh, gap, issued.stamped, ops, c.seen);
    RefreshUsable(Run(s', ops), token.secret, s'.lastRefresh, gap, c);
  }

  /** After two idle intervals no token issued before is accepted. */
  lemma IdleStoreForgets(s: Store, addr: IpAddr, token: Token, c: Clock)
    requires Valid(s, c.seen) && token.secret < s.drawn && c.seen - s.lastRefresh >= 2 * REFRESH_INTERVAL
    ensures !Checkin(s, addr, token, c).1
    ensures !Usable(Refresh(s, c), s.curr) && !Usable(Refresh(s, c), s.last)
  {
    IntervalBounds(s.lastRefresh, c.seen);
    hide IntervalsPassed;
  }

  /** No token is accepted thirty minutes (to the nanosecond, one less) after its checkout, plus the
      largest time any operation in between let pass from its first clock reading to its second. */
  lemma RejectedAfterThirtyMinutes(s: Store, addr: IpAddr, issued: Clock, ops: seq<Op>, gap: Time, c: Clock)
    requires Valid(s, issued.seen) && issued.seen <= issued.stamped && Between(issued.stamped, ops, c.seen)
    requires 0 <= gap && GapsWithin(ops, gap) && issued.stamped + 3 * REFRESH_INTERVAL - 1 + gap <= c.seen
    ensures var (s', token) := Checkout(s, addr, issued); !Checkin(Run(s', ops), addr, token, c).1
  {
    CheckoutTracks(s, addr, issued, gap);
    var (s', token) := Checkout(s, addr, issued);
    hide Checkout, Refresh;
    RunTracks(s', token.secret, s'.lastRefresh, gap, issued.stamped, ops, c.seen);
    CheckinExact(Run(s', ops), addr, token, c);
  }

  /** Both readings at one instant. */
  function At(now: Time): Clock {
    Clock(now, now)
  }

  /** A token checked out of a store at `issued` is accepted after the delay, with the given operations in
      between. */
  predicate AcceptsAfter(s: Store, addr: IpAddr, issued: Time, ops: seq<Op>, delay: Time) {
    var (s', token) := Checkout(s, addr, At(issued));
    Checkin(Run(s', ops), addr, token, At(issued + delay)).1
  }

  /** Thirty minutes and the gap is exact, and more than the twenty minutes of the documentation: for every
      gap and every shorter delay a new store can be run so that it still accepts a token that late. */
  lemma AcceptedAlmostThirtyMinutes(addr: IpAddr, gap: Time, delay: Time)
    requires 0 <= gap && 0 <= delay < 3 * REFRESH_INTERVAL - 1 + gap
    ensures exists ops :: Between(0, ops, delay) && GapsWithin(ops, gap) && AcceptsAfter(Fresh(0), addr, 0, ops, delay)
  {
    var s := Fresh(0);
    var late := 2 * REFRESH_INTERVAL - 1;
    var stamped := if delay < late + gap then delay else late + gap;
    var ops := if delay < late then [] else [CheckoutOp(addr, Clock(late, stamped))];
    IntervalBounds(0, 0);
    IntervalBounds(0, late);
    assert Checkout(s, addr, At(0)) == (s, Token(addr, 0));
    assert Run(s, []) == s;
    assert ops == [] || ops[..0] == [];
    var s1 := Run(s, ops);
    assert s1 == if delay < late then s else Store(2, 0, stamped, 3);
    CheckinExact(s1, addr, Token(addr, 0), At(delay));
    assert Between(0, ops, delay) && GapsWithin(ops, gap) && AcceptsAfter(s, addr, 0, ops, delay);
  }

  /** Ten minutes is all a token is sure of: for every longer delay a new store can be used so that it
      refuses a token that late, without anything happening in between. */
  lemma RefusedAfterTenMinutes(addr: IpAddr, delay: Time)
    requires delay > REFRESH_INTERVAL
    ensures exists issued :: issued >= 0 && !AcceptsAfter(Fresh(0), addr, issued, [], delay)
  {
    var s := Fresh(0);
    var issued := REFRESH_INTERVAL - 1;
    IntervalBounds(0, issued);
    assert Checkout(s, addr, At(issued)) == (s, Token(addr, 0));
    CheckinExact(s, addr, Token(addr, 0), At(issued + delay));
    assert !AcceptsAfter(s, addr, issued, [], delay);
  }

  /** A new store is valid from the start, and every run keeps it so. */
  lemma RunValid(start: Time, ops: seq<Op>, to: Time)
    requires Between(start, ops, to)
    ensures Valid(Run(Fresh(start), ops), to)
  {
    var gap := SomeGap(ops);
    RunTracks(Fresh(start), 0, start, gap, start, ops, to);
  }

  // ---------------------------------------------------------------- the store as an object

  class TokenStoreObject {
    var curr: Secret
    var last: Secret
    var lastRefresh: Time
    var drawn: nat

    function View(): Store
      reads this
    {
      Store(curr, last, lastRefresh, drawn)
    }

    constructor (now: Time)
      ensures View() == Fresh(now)
    {
      curr, last, lastRefresh, drawn := 0, 1, now, 2;
    }

    method Draw() returns (secret: Secret)
      modifies this`drawn
      ensures secret == old(drawn) && drawn == old(drawn) + 1
    {
      secret := drawn;
      drawn := drawn + 1;
    }

    method RefreshCheck(c: Clock)
      modifies this
      ensures View() == Refresh(old(View()), c)
    {
      var passed := IntervalsPassed(lastRefresh, c.seen);
      if passed == 1 {
        last := curr;
        curr := Draw();
        lastRefresh := c.stamped;
      } else if passed != 0 {
        last := Draw();
        curr := Draw();
        lastRefresh := c.stamped;
      }
    }

    method CheckOut(addr: IpAddr, c: Clock) returns (token: Token)
      modifies this
      ensures (View(), token) == Checkout(old(View()), addr, c)
    {
      RefreshCheck(c);
      token := Token(addr, curr);
    }

    method CheckIn(addr: IpAddr, token: Token, c: Clock) returns (ok: bool)
      modifies this
      ensures (View(), ok) == Checkin(old(View()), addr, token, c)
    {
      RefreshCheck(c);
      ok := token == Token(addr, curr) || token == Token(addr, last);
    }
  }
}
