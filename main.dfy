/** The coin economy of the cache popups. Each popup keeps its own coin count
    (the variable its two click handlers close over), the player holds one
    global count, and popups are memoised per cache position. The page, the
    map and the random generator are not part of this model: a new cache's
    coin count arrives as a parameter. */
module Geocoin {

  /** Coins the player holds when the session starts. */
  const InitialPlayerCoins: int := 5

  /** The two counters that one popup's handlers read and write. */
  datatype Counters = Counters(coins: int, playerCoins: int)

  function Total(s: Counters): int {
    s.coins + s.playerCoins
  }

  predicate NonNegative(s: Counters) {
    s.coins >= 0 && s.playerCoins >= 0
  }

  /** The collect handler: one coin moves from the cache to the player, and
      nothing happens when the cache holds no coin. */
  function Collected(s: Counters): (t: Counters)
    ensures Total(t) == Total(s)
    ensures NonNegative(s) ==> NonNegative(t)
    ensures t == s <==> s.coins <= 0
    ensures t != s ==> t.coins == s.coins - 1 && t.playerCoins == s.playerCoins + 1
  {
    if s.coins <= 0 then s else Counters(s.coins - 1, s.playerCoins + 1)
  }

  /** The deposit handler: one coin moves from the player to the cache, and
      nothing happens when the player holds no coin. */
  function Deposited(s: Counters): (t: Counters)
    ensures Total(t) == Total(s)
    ensures NonNegative(s) ==> NonNegative(t)
    ensures t == s <==> s.playerCoins <= 0
    ensures t != s ==> t.coins == s.coins + 1 && t.playerCoins == s.playerCoins - 1
  {
    if s.playerCoins <= 0 then s else Counters(s.coins + 1, s.playerCoins - 1)
  }

  /** A successful collect is undone by a deposit. */
  lemma DepositUndoesCollect(s: Counters)
    requires s.coins > 0 && s.playerCoins >= 0
    ensures Deposited(Collected(s)) == s
  {
  }

  /** A successful deposit is undone by a collect. */
  lemma CollectUndoesDeposit(s: Counters)
    requires s.playerCoins > 0 && s.coins >= 0
    ensures Collected(Deposited(s)) == s
  {
  }

  /** A click on one of the two buttons of a popup. */
  datatype Click = CollectClick | DepositClick

  /** The counters after a series of clicks on one popup, first click first. */
  function Replay(s: Counters, clicks: seq<Click>): Counters
    decreases |clicks|
  {
    if clicks == [] then s
    else
      var t := if clicks[0] == CollectClick then Collected(s) else Deposited(s);
      Replay(t, clicks[1..])
  }

  /** Any series of clicks keeps the sum of the two counters, and never drives
      either of them below zero when both start at zero or above. */
  lemma {:induction false} ReplayConserves(s: Counters, clicks: seq<Click>)
    ensures Total(Replay(s, clicks)) == Total(s)
    ensures NonNegative(s) ==> NonNegative(Replay(s, clicks))
    decreases |clicks|
  {
    if clicks != [] {
      var t := if clicks[0] == CollectClick then Collected(s) else Deposited(s);
      ReplayConserves(t, clicks[1..]);
    }
  }

  /** Sum of the counts that m records for the keys ks (a key m does not
      record counts zero). */
  function SumOf<K>(m: map<K, int>, ks: seq<K>): int
    decreases |ks|
  {
    if ks == [] then 0
    else SumOf(m, ks[..|ks| - 1]) + (if ks[|ks| - 1] in m then m[ks[|ks| - 1]] else 0)
  }

  /** No key of ks is listed twice. */
  predicate Distinct<K(==)>(ks: seq<K>) {
    forall a, b :: 0 <= a < b < |ks| ==> ks[a] != ks[b]
  }

  /** Changing the count of a key that ks does not list leaves the sum alone. */
  lemma {:induction false} SumOfIgnores<K>(m: map<K, int>, ks: seq<K>, k: K, v: int)
    requires k !in ks
    ensures SumOf(m[k := v], ks) == SumOf(m, ks)
    decreases |ks|
  {
    if ks != [] {
      SumOfIgnores(m, ks[..|ks| - 1], k, v);
    }
  }

  /** Changing the count of a key listed once changes the sum by the difference. */
  lemma {:induction false} SumOfUpdate<K>(m: map<K, int>, ks: seq<K>, k: K, v: int)
    requires Distinct(ks) && k in ks && k in m
    ensures SumOf(m[k := v], ks) == SumOf(m, ks) - m[k] + v
    decreases |ks|
  {
    var init, last := ks[..|ks| - 1], ks[|ks| - 1];
    if last == k {
      assert k !in init;
      SumOfIgnores(m, init, k, v);
    } else {
      SumOfUpdate(m, init, k, v);
    }
  }

  /** Recording a new key at the end adds its count to the sum. */
  lemma SumOfAppend<K>(m: map<K, int>, ks: seq<K>, k: K, v: int)
    requires k !in ks
    ensures SumOf(m[k := v], ks + [k]) == SumOf(m, ks) + v
  {
    assert (ks + [k])[..|ks|] == ks;
    SumOfIgnores(m, ks, k, v);
  }

  /** The popup of one cache: the coin count its handlers close over and the
      disabled state of its two buttons. */
  class Popup {
    var coins: int
    var collectDisabled: bool
    var depositDisabled: bool

    constructor (coins: int)
      ensures this.coins == coins && !collectDisabled && !depositDisabled
    {
      this.coins := coins;
      collectDisabled := false;
      depositDisabled := false;
    }
  }

  /** Popup p holds the coin count c, which is not negative, and its collect
      button is disabled exactly when c is zero. */
  ghost predicate Shows(p: Popup, c: int)
    reads p
  {
    p.coins == c && c >= 0 && p.collectDisabled == (c <= 0)
  }

  /** The state of one session: the player's coins and the popups created so
      far, keyed by cache position. The key type is left abstract. The ghost
      fields record the insertion order of the keys, the coin count of each
      cache (so that all coins of the session can be summed) and the set of
      popup objects. */
  class Session<K(==)> {
    var playerCoins: int
    var cachePopups: map<K, Popup>
    ghost var order: seq<K>
    ghost var ledger: map<K, int>
    ghost var Repr: set<Popup>

    /** The ghost order lists every key exactly once, and every position has a
        popup of its own. */
    ghost predicate Keyed()
      reads this`cachePopups, this`order, this`Repr
    {
      && (forall k :: k in cachePopups ==> k in order && cachePopups[k] in Repr)
      && (forall n :: 0 <= n < |order| ==> order[n] in cachePopups)
      && Distinct(order)
      && (forall k, k' :: k in cachePopups && k' in cachePopups && k != k' ==>
            cachePopups[k] != cachePopups[k'])
    }

    /** The ledger holds each cache's coin count; no cache holds a negative
        count, and each popup's collect button is disabled exactly when its
        cache is empty. */
    ghost predicate Recorded()
      reads this`cachePopups, this`ledger, this`Repr, Repr
    {
      ledger.Keys == cachePopups.Keys &&
      forall k :: k in cachePopups ==> cachePopups[k] in Repr && Shows(cachePopups[k], ledger[k])
    }

    /** The session invariant: the player's count is not negative either. */
    ghost predicate Valid()
      reads this, Repr
    {
      playerCoins >= 0 && Keyed() && Recorded()
    }

    /** Both buttons of popup p show the current counters. */
    ghost predicate ButtonsCurrent(p: Popup)
      reads this`playerCoins, p
    {
      p.collectDisabled == (p.coins <= 0) && p.depositDisabled == (playerCoins <= 0)
    }

    /** Every popup's buttons show the current counters. */
    ghost predicate AllCurrent()
      reads this`cachePopups, this`playerCoins, this`Repr, Repr
    {
      forall k :: k in cachePopups ==> cachePopups[k] in Repr && ButtonsCurrent(cachePopups[k])
    }

    /** The session invariant, with every popup drawn from the current counters. */
    ghost predicate Consistent()
      reads this, Repr
    {
      Valid() && AllCurrent()
    }

    /** All coins of the session: the player's and those of every cache. */
    ghost function TotalCoins(): int
      reads this
    {
      playerCoins + SumOf(ledger, order)
    }

    constructor ()
      ensures Valid() && Consistent()
      ensures playerCoins == InitialPlayerCoins && cachePopups == map[]
      ensures order == [] && ledger == map[] && Repr == {}
      ensures TotalCoins() == InitialPlayerCoins
    {
      playerCoins := InitialPlayerCoins;
      cachePopups := map[];
      order := [];
      ledger := map[];
      Repr := {};
    }

    /** Redraws popup p: its collect button is disabled iff its cache is empty,
        its deposit button iff the player has no coin. */
    method UpdateCachePopup(p: Popup)
      modifies p
      ensures p.coins == old(p.coins) && ButtonsCurrent(p)
    {
      p.collectDisabled := p.coins <= 0;
      p.depositDisabled := playerCoins <= 0;
    }

    /** The popup of the cache at position k: the memoised one when there is
        one, otherwise a new popup with the given coin count, redrawn and
        memoised under k. */
    method CachePopup(k: K, initialCoins: nat) returns (p: Popup)
      requires Valid()
      modifies this`cachePopups, this`order, this`ledger, this`Repr
      ensures Valid()
      ensures old(k in cachePopups) ==>
        p == old(cachePopups[k]) && cachePopups == old(cachePopups) &&
        order == old(order) && ledger == old(ledger) && Repr == old(Repr)
      ensures old(k !in cachePopups) ==>
        fresh(p) && cachePopups == old(cachePopups)[k := p] && order == old(order) + [k] &&
        Repr == old(Repr) + {p} && p.coins == initialCoins && ButtonsCurrent(p)
      ensures TotalCoins() == old(TotalCoins()) + if old(k in cachePopups) then 0 else initialCoins
      ensures old(Consistent()) ==> Consistent()
    {
      if k in cachePopups {
        p := cachePopups[k];
        return;
      }
      var coins := initialCoins;
      p := new Popup(coins);
      UpdateCachePopup(p);
      SumOfAppend(ledger, order, k, coins);
      Memoise(k, p);
    }

    /** Records a new popup p under the fresh key k. */
    method Memoise(k: K, p: Popup)
      requires Valid() && k !in cachePopups && p !in Repr
      requires p.coins >= 0 && p.collectDisabled == (p.coins <= 0)
      modifies this`cachePopups, this`order, this`ledger, this`Repr
      ensures Valid()
      ensures cachePopups == old(cachePopups)[k := p] && Repr == old(Repr) + {p}
      ensures order == old(order) + [k] && ledger == old(ledger)[k := p.coins]
      ensures old(AllCurrent()) && ButtonsCurrent(p) ==> AllCurrent()
    {
      cachePopups := cachePopups[k := p];
      order := order + [k];
      ledger := ledger[k := p.coins];
      Repr := Repr + {p};
    }

    /** The collect button of the popup at k. Only that popup is redrawn. */
    method Collect(k: K)
      requires Valid() && k in cachePopups
      modifies this`playerCoins, this`ledger, cachePopups[k]
      ensures Valid()
      ensures Counters(cachePopups[k].coins, playerCoins) ==
        Collected(Counters(old(cachePopups[k].coins), old(playerCoins)))
      ensures old(cachePopups[k].coins) <= 0 ==> unchanged(cachePopups[k])
      ensures old(cachePopups[k].coins) > 0 ==> ButtonsCurrent(cachePopups[k])
      ensures TotalCoins() == old(TotalCoins())
    {
      var p := cachePopups[k];
      if p.coins <= 0 {
        return;
      }
      ghost var total, before := TotalCoins(), Counters(p.coins, playerCoins);
      SumOfUpdate(ledger, order, k, ledger[k] - 1);
      p.coins := p.coins - 1;
      playerCoins := playerCoins + 1;
      ledger := ledger[k := ledger[k] - 1];
      assert TotalCoins() == total && Counters(p.coins, playerCoins) == Collected(before);
      UpdateCachePopup(p);
    }

    /** The deposit button of the popup at k. Only that popup is redrawn. */
    method Deposit(k: K)
      requires Valid() && k in cachePopups
      modifies this`playerCoins, this`ledger, cachePopups[k]
      ensures Valid()
      ensures Counters(cachePopups[k].coins, playerCoins) ==
        Deposited(Counters(old(cachePopups[k].coins), old(playerCoins)))
      ensures old(playerCoins) <= 0 ==> unchanged(cachePopups[k])
      ensures old(playerCoins) > 0 ==> ButtonsCurrent(cachePopups[k])
      ensures TotalCoins() == old(TotalCoins())
    {
      var p := cachePopups[k];
      if playerCoins <= 0 {
        return;
      }
      ghost var total, before := TotalCoins(), Counters(p.coins, playerCoins);
      SumOfUpdate(ledger, order, k, ledger[k] + 1);
      p.coins := p.coins + 1;
      playerCoins := playerCoins - 1;
      ledger := ledger[k := ledger[k] + 1];
      assert TotalCoins() == total && Counters(p.coins, playerCoins) == Deposited(before);
      UpdateCachePopup(p);
    }

    /** Redraws the deposit button of every popup from the player's count. */
    method RefreshDepositButtons()
      requires Valid()
      modifies Repr
      ensures Consistent()
      ensures forall k :: k in cachePopups ==>
        cachePopups[k].coins == old(cachePopups[k].coins) &&
        cachePopups[k].collectDisabled == old(cachePopups[k].collectDisabled)
    {
      var todo := cachePopups.Keys;
      while todo != {}
        invariant todo <= cachePopups.Keys
        invariant forall k :: k in cachePopups ==>
          cachePopups[k].coins == old(cachePopups[k].coins) &&
          cachePopups[k].collectDisabled == old(cachePopups[k].collectDisabled)
        invariant forall k :: k in cachePopups && k !in todo ==>
          cachePopups[k].depositDisabled == (playerCoins <= 0)
        decreases todo
      {
        var k :| k in todo;
        cachePopups[k].depositDisabled := playerCoins <= 0;
        todo := todo - {k};
      }
    }

    /** Collect, then redraw every popup's deposit button. */
    method CollectAndRefresh(k: K)
      requires Valid() && k in cachePopups
      modifies this`playerCoins, this`ledger, Repr
      ensures Consistent()
      ensures Counters(cachePopups[k].coins, playerCoins) ==
        Collected(Counters(old(cachePopups[k].coins), old(playerCoins)))
      ensures forall k' :: k' in cachePopups && k' != k ==>
        cachePopups[k'].coins == old(cachePopups[k'].coins)
      ensures TotalCoins() == old(TotalCoins())
    {
      Collect(k);
      RefreshDepositButtons();
    }

    /** Deposit, then redraw every popup's deposit button. */
    method DepositAndRefresh(k: K)
      requires Valid() && k in cachePopups
      modifies this`playerCoins, this`ledger, Repr
      ensures Consistent()
      ensures Counters(cachePopups[k].coins, playerCoins) ==
        Deposited(Counters(old(cachePopups[k].coins), old(playerCoins)))
      ensures forall k' :: k' in cachePopups && k' != k ==>
        cachePopups[k'].coins == old(cachePopups[k'].coins)
      ensures TotalCoins() == old(TotalCoins())
    {
      Deposit(k);
      RefreshDepositButtons();
    }

    /** A click on the collect button of the popup at k. The page delivers no
        click to a disabled button; since the collect button is disabled
        exactly when the cache is empty, the click acts as the listener does. */
    method ClickCollect(k: K)
      requires Valid() && k in cachePopups
      modifies this`playerCoins, this`ledger, cachePopups[k]
      ensures Valid()
      ensures Counters(cachePopups[k].coins, playerCoins) ==
        Collected(Counters(old(cachePopups[k].coins), old(playerCoins)))
      ensures old(cachePopups[k].collectDisabled) ==> unchanged(cachePopups[k])
      ensures !old(cachePopups[k].collectDisabled) ==> ButtonsCurrent(cachePopups[k])
      ensures TotalCoins() == old(TotalCoins())
    {
      if cachePopups[k].collectDisabled {
        return;
      }
      Collect(k);
    }

    /** A click on the deposit button of the popup at k: dropped while the
        button is disabled, otherwise the deposit listener runs. */
    method ClickDeposit(k: K)
      requires Valid() && k in cachePopups
      modifies this`playerCoins, this`ledger, cachePopups[k]
      ensures Valid()
      ensures old(cachePopups[k].depositDisabled) ==>
        playerCoins == old(playerCoins) && ledger == old(ledger) && unchanged(cachePopups[k])
      ensures !old(cachePopups[k].depositDisabled) ==>
        Counters(cachePopups[k].coins, playerCoins) ==
        Deposited(Counters(old(cachePopups[k].coins), old(playerCoins)))
      ensures old(playerCoins) <= 0 ==> unchanged(cachePopups[k])
      ensures !old(cachePopups[k].depositDisabled) && old(playerCoins) > 0 ==>
        ButtonsCurrent(cachePopups[k])
      ensures TotalCoins() == old(TotalCoins())
    {
      if cachePopups[k].depositDisabled {
        return;
      }
      Deposit(k);
    }
  }

  /** A session with one cache, at position 0 and opened with c0 coins, into
      which the player clicks deposit until the purse is empty. */
  method DrainedSession(c0: nat) returns (s: Session<int>, a: Popup)
    ensures fresh(s) && fresh(a)
    ensures s.Consistent() && s.cachePopups == map[0 := a] && s.Repr == {a}
    ensures a.coins == c0 + InitialPlayerCoins && s.playerCoins == 0
  {
    s := new Session<int>();
    a := s.CachePopup(0, c0);
    while s.playerCoins > 0
      invariant fresh(s) && fresh(a)
      invariant s.Valid() && s.cachePopups == map[0 := a] && s.Repr == {a} && s.ButtonsCurrent(a)
      invariant a.coins + s.playerCoins == c0 + InitialPlayerCoins
      decreases s.playerCoins
    {
      s.Deposit(0);
    }
  }

  /** The session above, after which the player opens cache 1, which holds c
      coins. */
  method TwoCaches(c0: nat, c: nat) returns (s: Session<int>, a: Popup, b: Popup)
    ensures fresh(s) && fresh(a) && fresh(b) && a != b && s.Consistent()
    ensures s.cachePopups == map[0 := a, 1 := b] && s.Repr == {a, b}
    ensures a.coins == c0 + InitialPlayerCoins && b.coins == c && s.playerCoins == 0
  {
    s, a := DrainedSession(c0);
    b := s.CachePopup(1, c);
  }

  /** As written, a collect redraws only its own popup. After the player has
      emptied their purse into cache 0 (opened with c0 coins) and opened cache
      1 (c coins), they collect one coin from cache 0 and then click deposit on
      cache 1. The player holds a coin, yet cache 1's deposit button is still
      disabled, so the click is dropped. When c is 0 its collect button is disabled too,
      and no click on cache 1 has any effect. */
  method StaleDepositExample(c0: nat, c: nat)
    returns (playerCoins: int, cacheCoins: int, depositDisabled: bool, collectDisabled: bool)
    ensures playerCoins == 1 && cacheCoins == c && depositDisabled
    ensures collectDisabled <==> c == 0
  {
    var s, a, b := TwoCaches(c0, c);
    assert s.ButtonsCurrent(s.cachePopups[1]);
    s.Collect(0);
    s.ClickDeposit(1);
    playerCoins, cacheCoins := s.playerCoins, b.coins;
    depositDisabled, collectDisabled := b.depositDisabled, b.collectDisabled;
  }

  /** With every deposit button redrawn after a click, the same clicks move
      the player's coin into cache 1. */
  method RefreshedDepositExample(c0: nat, c: nat) returns (playerCoins: int, cacheCoins: int)
    ensures playerCoins == 0 && cacheCoins == c + 1
  {
    var s, a, b := TwoCaches(c0, c);
    s.CollectAndRefresh(0);
    assert s.ButtonsCurrent(s.cachePopups[1]);
    s.ClickDeposit(1);
    playerCoins, cacheCoins := s.playerCoins, b.coins;
  }
}
