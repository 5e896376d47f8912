/** The capped migration of vote-manager funds into the vote_funding module account
    (app/stage_vote_funding_upgrade.go). */
module Funding {
  import opened Field

  const CHAIN_ID: string := "svote-1"

  const CAP: nat := 1_000_000_000

  datatype Account = Account(address: string)

  type Balances = map<Account, nat>

  function Get(b: Balances, a: Account): nat {
    if a in b then b[a] else 0
  }

  function Min(a: nat, b: nat): nat {
    if a < b then a else b
  }

  function Max(a: nat, b: nat): nat {
    if a < b then b else a
  }

  function Transfer(b: Balances, from: Account, to: Account, amount: nat): Balances
    requires amount <= Get(b, from)
  {
    var b1 := b[from := Get(b, from) - amount];
    b1[to := Get(b1, to) + amount]
  }

  // ----- the migration

  datatype Outcome = Outcome(balances: Balances, ok: bool)

  /** Visits the managers in order while capacity remains; None is an address that does not parse. */
  function Collect(b: Balances, pool: Account, remaining: nat, managers: seq<Option<Account>>): Outcome
    decreases |managers|
  {
    if managers == [] || remaining == 0 then Outcome(b, true)
    else match managers[0]
      case None => Outcome(b, false)
      case Some(m) =>
        if Get(b, m) == 0 then Collect(b, pool, remaining, managers[1..])
        else
          var amount := Min(Get(b, m), remaining);
          Collect(Transfer(b, m, pool, amount), pool, remaining - amount, managers[1..])
  }

  function Migrate(chainId: string, b: Balances, pool: Account, managers: seq<Option<Account>>): Outcome {
    if chainId != CHAIN_ID || Get(b, pool) >= CAP then Outcome(b, true)
    else Collect(b, pool, CAP - Get(b, pool), managers)
  }

  class Bank {
    var balances: Balances

    constructor (balances: Balances)
      ensures this.balances == balances
    {
      this.balances := balances;
    }

    /** Fails without effect when the sender does not have the amount. */
    method Send(from: Account, to: Account, amount: nat) returns (sent: bool)
      modifies this
      ensures sent <==> amount <= old(Get(balances, from))
      ensures balances == if sent then Transfer(old(balances), from, to, amount) else old(balances)
    {
      if amount > Get(balances, from) {
        return false;
      }
      balances := Transfer(balances, from, to, amount);
      return true;
    }

    method MigrateStageVoteFunding(chainId: string, pool: Account, managers: seq<Option<Account>>) returns (ok: bool)
      modifies this
      ensures Outcome(balances, ok) == Migrate(chainId, old(balances), pool, managers)
    {
      if chainId != CHAIN_ID {
        return true;
      }
      if Get(balances, pool) >= CAP {
        return true;
      }
      var remaining: nat := CAP - Get(balances, pool);
      for i := 0 to |managers|
        invariant Collect(old(balances), pool, CAP - old(Get(balances, pool)), managers)
               == Collect(balances, pool, remaining, managers[i..])
      {
        if remaining == 0 {
          return true;
        }
        assert managers[i..][0] == managers[i] && managers[i..][1..] == managers[i + 1..];
        match managers[i] {
          case None =>
            return false;
          case Some(m) =>
            if Get(balances, m) > 0 {
              var amount := Min(Get(balances, m), remaining);
              var sent := Send(m, pool, amount);
              assert sent;
              remaining := remaining - amount;
            }
        }
      }
      return true;
    }
  }

  // ----- sums over accounts

  ghost function SumOver(b: Balances, s: set<Account>): nat {
    if s == {} then 0 else var a :| a in s; Get(b, a) + SumOver(b, s - {a})
  }

  lemma {:induction false} SumRemove(b: Balances, s: set<Account>, a: Account)
    requires a in s
    ensures SumOver(b, s) == Get(b, a) + SumOver(b, s - {a})
    decreases |s|
  {
    var c :| c in s && SumOver(b, s) == Get(b, c) + SumOver(b, s - {c});
    if c != a {
      SumRemove(b, s - {c}, a);
      SumRemove(b, s - {a}, c);
      assert s - {c} - {a} == s - {a} - {c};
    }
  }

  lemma {:induction false} SumAgree(b: Balances, c: Balances, s: set<Account>)
    requires forall a :: a in s ==> Get(b, a) == Get(c, a)
    ensures SumOver(b, s) == SumOver(c, s)
    decreases |s|
  {
    if s != {} {
      var a :| a in s;
      SumRemove(b, s, a);
      SumRemove(c, s, a);
      SumAgree(b, c, s - {a});
    }
  }

  lemma SumInsert(b: Balances, s: set<Account>, a: Account)
    ensures SumOver(b, s + {a}) == SumOver(b, s) + if a in s then 0 else Get(b, a)
  {
    if a in s {
      assert s + {a} == s;
    } else {
      SumRemove(b, s + {a}, a);
      assert s + {a} - {a} == s;
    }
  }

  // ----- conservation

  ghost function Supply(b: Balances): nat {
    SumOver(b, b.Keys)
  }

  /** The sum over any set that holds both ends is unchanged by a transfer. */
  lemma TransferSum(b: Balances, from: Account, to: Account, amount: nat, s: set<Account>)
    requires amount <= Get(b, from) && from in s && to in s
    ensures SumOver(Transfer(b, from, to, amount), s) == SumOver(b, s)
  {
    var c := Transfer(b, from, to, amount);
    if from == to {
      SumAgree(b, c, s);
    } else {
      SumRemove(b, s, from);
      SumRemove(b, s - {from}, to);
      SumRemove(c, s, from);
      SumRemove(c, s - {from}, to);
      SumAgree(b, c, s - {from} - {to});
    }
  }

  lemma TransferSupply(b: Balances, from: Account, to: Account, amount: nat)
    requires amount <= Get(b, from) && Get(b, from) > 0
    ensures Supply(Transfer(b, from, to, amount)) == Supply(b)
  {
    var c := Transfer(b, from, to, amount);
    TransferSum(b, from, to, amount, c.Keys);
    assert c.Keys == b.Keys + {to};
    SumInsert(b, b.Keys, to);
  }

  /** One visit to a manager: what is moved, and the rest of the run. */
  lemma CollectVisit(b: Balances, pool: Account, remaining: nat, managers: seq<Option<Account>>)
    returns (amount: nat, next: Balances)
    requires managers != [] && remaining > 0 && managers[0].Some?
    ensures amount == Min(Get(b, managers[0].value), remaining) <= remaining
    ensures next == if amount == 0 then b else Transfer(b, managers[0].value, pool, amount)
    ensures Collect(b, pool, remaining, managers) == Collect(next, pool, remaining - amount, managers[1..])
  {
    amount := Min(Get(b, managers[0].value), remaining);
    next := if amount == 0 then b else Transfer(b, managers[0].value, pool, amount);
  }

  /** No coin appears or disappears and nobody but the module account gains, on every input,
      including the failing ones. */
  lemma {:induction false} CollectConserves(b: Balances, pool: Account, remaining: nat, managers: seq<Option<Account>>)
    ensures var c := Collect(b, pool, remaining, managers).balances;
      && Supply(c) == Supply(b)
      && (forall a :: a != pool ==> Get(c, a) <= Get(b, a))
      && (forall a :: a != pool && Some(a) !in managers ==> Get(c, a) == Get(b, a))
      && Get(b, pool) <= Get(c, pool) <= Get(b, pool) + remaining
    decreases |managers|
  {
    hide Supply, Transfer, Get;
    if managers != [] && remaining > 0 && managers[0].Some? {
      var m := managers[0].value;
      var amount, next := CollectVisit(b, pool, remaining, managers);
      CollectConserves(next, pool, remaining - amount, managers[1..]);
      assert forall a :: a !in managers ==> a !in managers[1..];
      if amount > 0 {
        TransferSupply(b, m, pool, amount);
        TransferBalances(b, m, pool, amount);
      }
    }
  }

  lemma TransferBalances(b: Balances, from: Account, to: Account, amount: nat)
    requires amount <= Get(b, from)
    ensures var c := Transfer(b, from, to, amount);
      && (forall a :: a != to ==> Get(c, a) <= Get(b, a))
      && (forall a :: a != from && a != to ==> Get(c, a) == Get(b, a))
      && Get(b, to) <= Get(c, to) <= Get(b, to) + amount
  {
  }

  /** Any other chain, and a module account that is full already, are left alone. */
  lemma MigrationIsForStaging(chainId: string, b: Balances, pool: Account, managers: seq<Option<Account>>)
    requires chainId != "svote-1" || Get(b, pool) >= 1_000_000_000
    ensures Migrate(chainId, b, pool, managers) == Outcome(b, true)
  {
  }

  lemma MigrationConserves(chainId: string, b: Balances, pool: Account, managers: seq<Option<Account>>)
    ensures var c := Migrate(chainId, b, pool, managers).balances;
      && Supply(c) == Supply(b)
      && (forall a :: a != pool ==> Get(c, a) <= Get(b, a))
      && Get(b, pool) <= Get(c, pool) <= Max(CAP, Get(b, pool))
  {
    if chainId == CHAIN_ID && Get(b, pool) < CAP {
      CollectConserves(b, pool, CAP - Get(b, pool), managers);
    }
  }

  // ----- the final balance

  /** The accounts listed before the first address that does not parse. */
  function Leading(managers: seq<Option<Account>>): seq<Account> {
    if managers == [] || managers[0].None? then []
    else [managers[0].value] + Leading(managers[1..])
  }

  ghost function Elements(s: seq<Account>): set<Account> {
    set a | a in s
  }

  /** With the module account not among the managers: it receives what they hold together, each
      counted once, up to the capacity; the run fails exactly when an address that does not parse is
      reached with capacity to spare; and unless the capacity is used up they are all left empty. */
  lemma {:induction false} CollectExact(b: Balances, pool: Account, remaining: nat, managers: seq<Option<Account>>)
    requires pool !in Leading(managers)
    ensures var r := Collect(b, pool, remaining, managers); var total := SumOver(b, Elements(Leading(managers)));
      && Get(r.balances, pool) == Get(b, pool) + Min(remaining, total)
      && (r.ok <==> |Leading(managers)| == |managers| || total >= remaining)
      && (total < remaining ==> forall a :: a in Leading(managers) ==> Get(r.balances, a) == 0)
    decreases |managers|
  {
    hide SumOver, Transfer, Get;
    var s := Elements(Leading(managers));
    if remaining == 0 || managers == [] || managers[0].None? {
      EmptySum(b, s);
    } else {
      var m, rest := managers[0].value, Elements(Leading(managers[1..]));
      assert s == {m} + rest;
      assert Leading(managers)[0] == m && Leading(managers)[1..] == Leading(managers[1..]);
      SumRemove(b, s, m);
      assert s - {m} == rest - {m};
      var amount, next := CollectVisit(b, pool, remaining, managers);
      if amount > 0 {
        TransferGets(b, m, pool, amount);
      }
      SumWithout(b, next, rest, m);
      CollectExact(next, pool, remaining - amount, managers[1..]);
      CollectConserves(next, pool, remaining - amount, managers[1..]);
    }
  }

  lemma SumWithout(b: Balances, c: Balances, s: set<Account>, m: Account)
    requires forall a :: a in s && a != m ==> Get(b, a) == Get(c, a)
    ensures SumOver(c, s) == SumOver(b, s - {m}) + if m in s then Get(c, m) else 0
  {
    SumAgree(b, c, s - {m});
    if m in s {
      SumRemove(c, s, m);
    } else {
      assert s - {m} == s;
    }
  }

  lemma EmptySum(b: Balances, s: set<Account>)
    ensures s == {} ==> SumOver(b, s) == 0
  {
  }

  lemma TransferGets(b: Balances, from: Account, to: Account, amount: nat)
    requires amount <= Get(b, from) && from != to
    ensures var c := Transfer(b, from, to, amount);
      && Get(c, from) == Get(b, from) - amount && Get(c, to) == Get(b, to) + amount
      && forall a :: a != from && a != to ==> Get(c, a) == Get(b, a)
  {
  }

  /** The promised final balance of the module account. */
  ghost predicate ReachesPromise(b: Balances, pool: Account, managers: seq<Account>) {
    var others := Elements(managers) - {pool};
    Get(Migrate(CHAIN_ID, b, pool, Listed(managers)).balances, pool)
      == Max(Get(b, pool), Min(CAP, Get(b, pool) + SumOver(b, others)))
  }

  function Listed(managers: seq<Account>): (ms: seq<Option<Account>>)
    ensures |ms| == |managers| && forall i :: 0 <= i < |ms| ==> ms[i] == Some(managers[i])
  {
    seq(|managers|, i requires 0 <= i < |managers| => Some(managers[i]))
  }

  lemma {:induction false} LeadingListed(managers: seq<Account>)
    ensures Leading(Listed(managers)) == managers
  {
    if managers != [] {
      assert Listed(managers)[1..] == Listed(managers[1..]);
      LeadingListed(managers[1..]);
      assert managers == [managers[0]] + managers[1..];
    }
  }

  /** Every listed manager other than the module account comes up before the module account does. */
  ghost predicate ModuleComesLast(pool: Account, managers: seq<Account>) {
    forall j :: 0 <= j < |managers| && managers[j] != pool && pool in managers[..j] ==>
      managers[j] in Before(pool, managers)
  }

  /** The part of the list before the module account's first appearance. */
  function Before(pool: Account, managers: seq<Account>): (pre: seq<Account>)
    ensures |pre| <= |managers| && pre == managers[..|pre|] && pool !in pre
    ensures |pre| < |managers| ==> managers[|pre|] == pool
  {
    if managers == [] || managers[0] == pool then []
    else [managers[0]] + Before(pool, managers[1..])
  }

  /** Managers without funds, and the module account itself, leave every balance as it is. */
  lemma {:induction false} CollectNothing(b: Balances, pool: Account, remaining: nat, managers: seq<Option<Account>>)
    requires forall i :: 0 <= i < |managers| ==>
      managers[i].Some? && (managers[i].value == pool || Get(b, managers[i].value) == 0)
    ensures Collect(b, pool, remaining, managers) == Outcome(b, true)
    decreases |managers|
  {
    if managers != [] && remaining > 0 {
      var m := managers[0].value;
      var amount := Min(Get(b, m), remaining);
      if Get(b, m) == 0 {
        CollectNothing(b, pool, remaining, managers[1..]);
      } else {
        assert Transfer(b, m, pool, amount) == b;
        CollectNothing(b, pool, remaining - amount, managers[1..]);
      }
    }
  }

  lemma CollectCons(b: Balances, pool: Account, remaining: nat, a: seq<Account>)
    ensures a == [] || remaining == 0 ==> Collect(b, pool, remaining, Listed(a)) == Outcome(b, true)
    ensures a != [] && remaining > 0 ==>
      var amount := Min(Get(b, a[0]), remaining);
      Collect(b, pool, remaining, Listed(a)) ==
        if amount == 0 then Collect(b, pool, remaining, Listed(a[1..]))
        else Collect(Transfer(b, a[0], pool, amount), pool, remaining - amount, Listed(a[1..]))
  {
    if a != [] {
      assert Listed(a)[1..] == Listed(a[1..]);
    }
  }

  /** Splitting the list: the second part continues with what capacity is left. */
  lemma {:induction false} CollectSplit(b: Balances, pool: Account, remaining: nat, a: seq<Account>, c: seq<Account>)
    requires pool !in a
    ensures var first := Collect(b, pool, remaining, Listed(a)).balances;
      && Get(first, pool) <= Get(b, pool) + remaining
      && Collect(b, pool, remaining, Listed(a + c))
         == Collect(first, pool, Get(b, pool) + remaining - Get(first, pool), Listed(c))
    decreases |a|
  {
    hide Transfer, Collect, Listed, Get;
    CollectConserves(b, pool, remaining, Listed(a));
    CollectCons(b, pool, remaining, a);
    CollectCons(b, pool, remaining, a + c);
    if a == [] {
      assert a + c == c;
    } else if remaining == 0 {
      CollectCons(b, pool, remaining, c);
    } else {
      assert (a + c)[1..] == a[1..] + c;
      var amount := Min(Get(b, a[0]), remaining);
      if amount == 0 {
        CollectSplit(b, pool, remaining, a[1..], c);
      } else {
        TransferGets(b, a[0], pool, amount);
        CollectSplit(Transfer(b, a[0], pool, amount), pool, remaining - amount, a[1..], c);
      }
    }
  }

  /** The promise is kept for all balances if and only if no manager is listed for the first time after
      the module account; in particular whenever the module account is not a manager. */
  lemma PromiseExact(pool: Account, managers: seq<Account>)
    ensures (forall b :: ReachesPromise(b, pool, managers)) <==> ModuleComesLast(pool, managers)
  {
    hide ReachesPromise;
    if ModuleComesLast(pool, managers) {
      forall b ensures ReachesPromise(b, pool, managers) {
        PromiseKept(b, pool, managers);
      }
    } else {
      var j :| 0 <= j < |managers| && managers[j] != pool && pool in managers[..j]
        && managers[j] !in Before(pool, managers);
      PromiseBroken(pool, managers, managers[j]);
    }
  }

  lemma PromiseKept(b: Balances, pool: Account, managers: seq<Account>)
    requires ModuleComesLast(pool, managers)
    ensures ReachesPromise(b, pool, managers)
  {
    hide SumOver, Collect, Before, ModuleComesLast, Elements;
    SameManagers(pool, managers);
    if Get(b, pool) < CAP {
      ListThenModule(b, pool, CAP - Get(b, pool), managers);
    }
  }

  /** What follows the module account's first appearance adds nothing. */
  lemma ListThenModule(b: Balances, pool: Account, remaining: nat, managers: seq<Account>)
    requires ModuleComesLast(pool, managers)
    ensures Get(Collect(b, pool, remaining, Listed(managers)).balances, pool)
         == Get(b, pool) + Min(remaining, SumOver(b, Elements(Before(pool, managers))))
  {
    hide *;
    var pre := Before(pool, managers);
    var post := managers[|pre|..];
    assert managers == pre + post;
    PostIsKnown(pool, managers);
    RestAddsNothing(b, pool, remaining, pre, post);
  }

  lemma PostIsKnown(pool: Account, managers: seq<Account>)
    requires ModuleComesLast(pool, managers)
    ensures var pre := Before(pool, managers);
      forall i :: |pre| <= i < |managers| ==> managers[i] == pool || managers[i] in pre
  {
    hide Before;
    var pre := Before(pool, managers);
    forall i | |pre| <= i < |managers| && managers[i] != pool ensures managers[i] in pre {
      assert managers[..i][|pre|] == pool;
    }
  }

  lemma RestAddsNothing(b: Balances, pool: Account, remaining: nat, pre: seq<Account>, post: seq<Account>)
    requires pool !in pre && forall i :: 0 <= i < |post| ==> post[i] == pool || post[i] in pre
    ensures Get(Collect(b, pool, remaining, Listed(pre + post)).balances, pool)
         == Get(b, pool) + Min(remaining, SumOver(b, Elements(pre)))
  {
    hide SumOver, Collect, Leading, Get;
    LeadingListed(pre);
    CollectExact(b, pool, remaining, Listed(pre));
    var first := Collect(b, pool, remaining, Listed(pre)).balances;
    CollectSplit(b, pool, remaining, pre, post);
    if SumOver(b, Elements(pre)) < remaining {
      CollectNothing(first, pool, Get(b, pool) + remaining - Get(first, pool), Listed(post));
    } else {
      CollectStops(first, pool, Listed(post));
    }
  }

  lemma CollectStops(b: Balances, pool: Account, managers: seq<Option<Account>>)
    ensures Collect(b, pool, 0, managers) == Outcome(b, true)
  {
  }

  lemma SameManagers(pool: Account, managers: seq<Account>)
    requires ModuleComesLast(pool, managers)
    ensures Elements(managers) - {pool} == Elements(Before(pool, managers))
  {
    var pre := Before(pool, managers);
    forall a | a in managers && a != pool ensures a in pre {
      var j :| 0 <= j < |managers| && managers[j] == a;
      if j < |pre| {
        assert pre[j] == a;
      } else {
        assert managers[..j][|pre|] == pool;
      }
    }
    assert forall i :: 0 <= i < |pre| ==> pre[i] == managers[i];
  }

  /** Half the cap in the module account and half with a manager listed after it: visiting the module
      account uses up the capacity and nothing moves. */
  lemma PromiseBroken(pool: Account, managers: seq<Account>, a: Account)
    requires a in managers && a != pool && a !in Before(pool, managers) && pool in managers
    ensures exists b :: !ReachesPromise(b, pool, managers)
  {
    hide Collect, SumOver, Before, ReachesPromise, Elements;
    var half := CAP / 2;
    var b := map[pool := half, a := half];
    NothingMoves(b, pool, managers, half);
    SumRemove(b, Elements(managers) - {pool}, a) by {
      Member(managers, a);
    }
    MissesPromise(b, pool, managers);
  }

  lemma Member(s: seq<Account>, a: Account)
    requires a in s
    ensures a in Elements(s)
  {
  }

  lemma MissesPromise(b: Balances, pool: Account, managers: seq<Account>)
    requires Get(b, pool) == CAP / 2 && SumOver(b, Elements(managers) - {pool}) >= CAP / 2
    requires Collect(b, pool, CAP / 2, Listed(managers)).balances == b
    ensures !ReachesPromise(b, pool, managers)
  {
    hide Collect, SumOver, Elements;
  }

  lemma NothingMoves(b: Balances, pool: Account, managers: seq<Account>, half: nat)
    requires pool in managers && Get(b, pool) == half > 0
    requires forall c :: c in Before(pool, managers) ==> Get(b, c) == 0
    ensures Collect(b, pool, half, Listed(managers)).balances == b
  {
    hide Collect, Before, Transfer;
    var pre := Before(pool, managers);
    var post := managers[|pre|..];
    assert managers == pre + post;
    assert pool in post;
    CollectNothing(b, pool, half, Listed(pre));
    CollectSplit(b, pool, half, pre, post);
    VisitModule(b, pool, half, post);
  }

  lemma VisitModule(b: Balances, pool: Account, remaining: nat, managers: seq<Account>)
    requires managers != [] && managers[0] == pool && Get(b, pool) == remaining > 0
    ensures Collect(b, pool, remaining, Listed(managers)).balances == b
  {
    assert Transfer(b, pool, pool, remaining) == b;
    CollectStops(b, pool, Listed(managers)[1..]);
  }

  // ----- running it again

  /** Whatever capacity a run did not turn into a gain, a second run over its result cannot use either:
      the managers it still reaches are empty, and visits to the module account itself use up at least
      as much as before. */
  lemma {:induction false} CollectAgain(b: Balances, pool: Account, remaining: nat, managers: seq<Option<Account>>,
                                        again: nat)
    requires Collect(b, pool, remaining, managers).ok
    requires Get(Collect(b, pool, remaining, managers).balances, pool) - Get(b, pool) + again <= remaining
    ensures var c := Collect(b, pool, remaining, managers).balances;
      Collect(c, pool, again, managers) == Outcome(c, true)
    decreases |managers|
  {
    hide Collect, Transfer, Get, Min;
    var c := Collect(b, pool, remaining, managers).balances;
    CollectEnds(b, pool, remaining, managers);
    CollectEnds(c, pool, again, managers);
    if managers != [] && remaining > 0 && again > 0 {
      var m, rest := managers[0].value, managers[1..];
      var amount, next := CollectVisit(b, pool, remaining, managers);
      var spent, after := CollectVisit(c, pool, again, managers);
      CollectConserves(next, pool, remaining - amount, rest);
      VisitAgain(b, m, pool, remaining, amount, next, c, again, spent, after);
      CollectAgain(next, pool, remaining - amount, rest, again - spent);
    }
  }

  lemma CollectEnds(b: Balances, pool: Account, remaining: nat, managers: seq<Option<Account>>)
    ensures managers == [] || remaining == 0 ==> Collect(b, pool, remaining, managers) == Outcome(b, true)
    ensures managers != [] && remaining > 0 && Collect(b, pool, remaining, managers).ok ==> managers[0].Some?
  {
  }

  lemma VisitAgain(b: Balances, m: Account, pool: Account, remaining: nat, amount: nat, next: Balances,
                   c: Balances, again: nat, spent: nat, after: Balances)
    requires amount == Min(Get(b, m), remaining) && next == if amount == 0 then b else Transfer(b, m, pool, amount)
    requires spent == Min(Get(c, m), again) && after == if spent == 0 then c else Transfer(c, m, pool, spent)
    requires again > 0 && Get(c, pool) - Get(b, pool) + again <= remaining
    requires m != pool ==> Get(c, m) <= Get(next, m)
    requires Get(next, pool) <= Get(c, pool) <= Get(next, pool) + remaining - amount
    ensures after == c && Get(c, pool) - Get(next, pool) + (again - spent) <= remaining - amount
  {
    hide Transfer, Get;
    if m == pool {
      SelfTransfer(b, pool, amount);
      SelfTransfer(c, pool, spent);
      SelfVisits(Get(b, pool), Get(c, pool), remaining, again);
    } else {
      VisitedIsEmpty(b, m, pool, remaining, next, c, again);
    }
  }

  lemma SelfVisits(before: nat, after: nat, remaining: nat, again: nat)
    requires after - before + again <= remaining
    requires before <= after <= before + remaining - Min(before, remaining)
    ensures after - before + (again - Min(after, again)) <= remaining - Min(before, remaining)
  {
  }

  lemma VisitedIsEmpty(b: Balances, m: Account, pool: Account, remaining: nat, next: Balances, c: Balances, again: nat)
    requires m != pool && again > 0 && Get(c, pool) - Get(b, pool) + again <= remaining
    requires var amount := Min(Get(b, m), remaining); next == if amount == 0 then b else Transfer(b, m, pool, amount)
    requires Get(c, m) <= Get(next, m) && Get(next, pool) <= Get(c, pool)
    ensures Get(next, pool) == Get(b, pool) + Min(Get(b, m), remaining) && Min(Get(c, m), again) == 0
  {
    hide Transfer, Get;
    var amount := Min(Get(b, m), remaining);
    if amount > 0 {
      TransferGets(b, m, pool, amount);
    }
  }

  lemma SelfTransfer(b: Balances, pool: Account, amount: nat)
    requires amount <= Get(b, pool)
    ensures amount > 0 ==> Transfer(b, pool, pool, amount) == b
  {
  }

  /** After a successful run a second one changes nothing, on every input. */
  lemma SecondRunIdle(chainId: string, b: Balances, pool: Account, managers: seq<Option<Account>>)
    requires Migrate(chainId, b, pool, managers).ok
    ensures var once := Migrate(chainId, b, pool, managers);
      Migrate(chainId, once.balances, pool, managers) == once
  {
    hide Collect, Get;
    if chainId == CHAIN_ID && Get(b, pool) < CAP {
      var remaining := CAP - Get(b, pool);
      CollectConserves(b, pool, remaining, managers);
      var c := Collect(b, pool, remaining, managers).balances;
      CollectAgain(b, pool, remaining, managers, CAP - Get(c, pool));
    }
  }
}
