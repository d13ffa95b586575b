/**
 * DistributionManager: the admin device's list of issued distributions (credential
 * payload, recipient and provisioning link), kept in insertion order. Ids and the clock
 * are parameters: a fresh id is one no stored record carries.
 */
module Distributions {
  import opened Common
  import DeepLinks

  datatype Distribution = Distribution(
    id: string,
    username: string,
    cardData: string,
    deepLink: string,
    timestamp: int,
    isActive: bool)

  /** The persisted list, in stored order. */
  type Store = seq<Distribution>

  function Ids(store: Store): set<string> {
    set d | d in store :: d.id
  }

  /** The link is the one rendered from the record's own fields. */
  predicate LinkMatches(d: Distribution) {
    d.deepLink == DeepLinks.GenerateDeepLink(d.username, d.cardData, d.id)
  }

  /** What every operation keeps: ids are unique and every link matches its record. */
  predicate Valid(store: Store) {
    && (forall i, j :: 0 <= i < j < |store| ==> store[i].id != store[j].id)
    && (forall k :: 0 <= k < |store| ==> LinkMatches(store[k]))
  }

  /** The two-argument constructor: active, stamped `now`, linked under its new id. */
  function NewDistribution(username: string, cardData: string, id: string, now: int): (d: Distribution)
    ensures d.id == id && d.username == username && d.cardData == cardData
    ensures d.timestamp == now && d.isActive
    ensures LinkMatches(d)
  {
    Distribution(id, username, cardData, DeepLinks.GenerateDeepLink(username, cardData, id), now, true)
  }

  /** reissueWithNewLink: a new id, time and link; recipient, payload and flag unchanged. */
  function ReissueWithNewLink(d: Distribution, id: string, now: int): (r: (Distribution, string))
    ensures r.0.id == id && r.0.timestamp == now
    ensures r.0.username == d.username && r.0.cardData == d.cardData && r.0.isActive == d.isActive
    ensures LinkMatches(r.0) && r.1 == r.0.deepLink
    ensures id != d.id && LinkMatches(d) ==> r.1 != d.deepLink
  {
    var link := DeepLinks.GenerateDeepLink(d.username, d.cardData, id);
    if id != d.id && LinkMatches(d) then
      LinkIdInjective(d.username, d.cardData, id, d.id);
      (d.(id := id, timestamp := now, deepLink := link), link)
    else
      (d.(id := id, timestamp := now, deepLink := link), link)
  }

  /** Links for one recipient and payload differ whenever the ids do. */
  lemma LinkIdInjective(username: string, cardData: string, id1: string, id2: string)
    requires id1 != id2
    ensures DeepLinks.GenerateDeepLink(username, cardData, id1) != DeepLinks.GenerateDeepLink(username, cardData, id2)
  {
    var prefix := "rfaccess://open?username=" + username + "&cardData=" + cardData + "&action=program&id=";
    assert DeepLinks.GenerateDeepLink(username, cardData, id1) == prefix + id1;
    assert DeepLinks.GenerateDeepLink(username, cardData, id2) == prefix + id2;
    assert (prefix + id1)[|prefix|..] == id1;
    assert (prefix + id2)[|prefix|..] == id2;
  }

  /** removeIf(d -> d.id.equals(id)): the records without that id, in order. */
  function RemoveId(store: Store, id: string): (r: Store)
    ensures |r| <= |store|
    ensures forall d :: d in r <==> d in store && d.id != id
    ensures id !in Ids(store) ==> r == store
  {
    if |store| == 0 then []
    else if store[0].id == id then RemoveId(store[1..], id)
    else [store[0]] + RemoveId(store[1..], id)
  }

  lemma {:induction false} RemoveIdAppend(a: Store, b: Store, id: string)
    ensures RemoveId(a + b, id) == RemoveId(a, id) + RemoveId(b, id)
  {
    if |a| > 0 {
      assert (a + b)[1..] == a[1..] + b;
      RemoveIdAppend(a[1..], b, id);
    } else {
      assert a + b == b;
    }
  }

  /** The records after the first one of a valid store form a valid store. */
  lemma TailValid(store: Store)
    requires |store| > 0 && Valid(store)
    ensures Valid(store[1..])
  {
    var tail := store[1..];
    forall i, j | 0 <= i < j < |tail| ensures tail[i].id != tail[j].id {
      assert tail[i] == store[i + 1] && tail[j] == store[j + 1];
    }
    forall k | 0 <= k < |tail| ensures LinkMatches(tail[k]) {
      assert tail[k] == store[k + 1];
    }
  }

  /** A record with a matching link and an id the rest lacks can head a valid store. */
  lemma ConsValid(d: Distribution, rest: Store)
    requires Valid(rest) && LinkMatches(d)
    requires forall k :: 0 <= k < |rest| ==> d.id != rest[k].id
    ensures Valid([d] + rest)
  {
    var r := [d] + rest;
    forall i, j | 0 <= i < j < |r| ensures r[i].id != r[j].id {
      assert r[j] == rest[j - 1];
      if i > 0 { assert r[i] == rest[i - 1]; }
    }
    forall k | 0 <= k < |r| ensures LinkMatches(r[k]) {
      if k > 0 { assert r[k] == rest[k - 1]; }
    }
  }

  /** Removing an id keeps a store valid. */
  lemma {:induction false} RemoveIdKeepsValid(store: Store, id: string)
    ensures Valid(store) ==> Valid(RemoveId(store, id))
  {
    if |store| > 0 && Valid(store) {
      var tail := store[1..];
      TailValid(store);
      RemoveIdKeepsValid(tail, id);
      if store[0].id != id {
        var rest := RemoveId(tail, id);
        forall k | 0 <= k < |rest| ensures store[0].id != rest[k].id {
          assert rest[k] in tail;
          var m :| 0 <= m < |tail| && tail[m] == rest[k];
          assert store[m + 1] == rest[k];
        }
        ConsValid(store[0], rest);
      }
    }
  }

  /** saveDistribution: drop every record with the same id, then append. */
  function Save(store: Store, d: Distribution): (r: Store)
    ensures |r| >= 1 && r[|r| - 1] == d
    ensures forall k :: 0 <= k < |r| - 1 ==> r[k].id != d.id
    ensures forall x :: x in r[..|r| - 1] <==> x in store && x.id != d.id
    ensures d.id !in Ids(store) ==> r == store + [d]
    ensures Valid(store) && LinkMatches(d) ==> Valid(r)
  {
    var kept := RemoveId(store, d.id);
    var r := kept + [d];
    assert r[..|r| - 1] == kept;
    assert forall k :: 0 <= k < |kept| ==> kept[k] in kept;
    RemoveIdKeepsValid(store, d.id);
    r
  }

  /**
   * Saving touches only the records with the saved id: the others come out as they were,
   * in their order, and saving the same record again changes nothing.
   */
  lemma SaveKeepsOthers(store: Store, d: Distribution)
    ensures RemoveId(Save(store, d), d.id) == RemoveId(store, d.id)
    ensures Save(Save(store, d), d) == Save(store, d)
  {
    var kept := RemoveId(store, d.id);
    RemoveIdAppend(kept, [d], d.id);
    assert RemoveId([d], d.id) == [];
    assert d.id !in Ids(kept);
    assert Save(store, d) == kept + [d];
    assert RemoveId(kept + [d], d.id) == kept;
  }

  /** createDistribution: a new active record under a fresh id, appended to the store. */
  function Create(store: Store, username: string, cardData: string, id: string, now: int): (r: (Store, Distribution))
    requires id !in Ids(store)
    ensures r.1 == NewDistribution(username, cardData, id, now)
    ensures r.0 == store + [r.1]
    ensures Valid(store) ==> Valid(r.0)
  {
    var d := NewDistribution(username, cardData, id, now);
    (Save(store, d), d)
  }

  /** getActiveDistributions: the active records, in stored order. */
  function ActiveOnly(store: Store): (r: Store)
    ensures |r| <= |store|
    ensures forall d :: d in r <==> d in store && d.isActive
  {
    if |store| == 0 then []
    else if store[0].isActive then [store[0]] + ActiveOnly(store[1..])
    else ActiveOnly(store[1..])
  }

  /** The active view of two stretches of the store is the two views in order. */
  lemma {:induction false} ActiveOnlyAppend(a: Store, b: Store)
    ensures ActiveOnly(a + b) == ActiveOnly(a) + ActiveOnly(b)
  {
    if |a| > 0 {
      assert (a + b)[1..] == a[1..] + b;
      ActiveOnlyAppend(a[1..], b);
    } else {
      assert a + b == b;
    }
  }

  /** The number of active records, counted one record at a time. */
  function CountActive(store: Store): nat {
    if |store| == 0 then 0
    else (if store[0].isActive then 1 else 0) + CountActive(store[1..])
  }

  lemma {:induction false} ActiveOnlyCount(store: Store)
    ensures |ActiveOnly(store)| == CountActive(store)
  {
    if |store| > 0 {
      ActiveOnlyCount(store[1..]);
    }
  }

  /** getActiveDistributionCount: the size of the active view. */
  function ActiveCount(store: Store): (n: nat)
    ensures n == CountActive(store)
    ensures n <= |store|
    ensures n == 0 <==> forall d :: d in store ==> !d.isActive
  {
    var r := ActiveOnly(store);
    assert |r| > 0 ==> r[0] in r;
    ActiveOnlyCount(store);
    |r|
  }

  /** deleteDistribution: whether a record had the id; if none did, nothing is written. */
  function Delete(store: Store, id: string): (r: (Store, bool))
    ensures r.1 <==> id in Ids(store)
    ensures r.0 == RemoveId(store, id)
    ensures forall d :: d in r.0 <==> d in store && d.id != id
    ensures id !in Ids(r.0)
    ensures !r.1 ==> r.0 == store
    ensures r.1 ==> |r.0| < |store|
    ensures Valid(store) ==> Valid(r.0)
  {
    var kept := RemoveId(store, id);
    if id in Ids(store) then
      RemoveIdShrinks(store, id);
      RemoveIdKeepsValid(store, id);
      (kept, true)
    else
      (store, false)
  }

  lemma {:induction false} RemoveIdShrinks(store: Store, id: string)
    requires id in Ids(store)
    ensures |RemoveId(store, id)| < |store|
  {
    if store[0].id != id {
      assert id in Ids(store[1..]) by {
        var d :| d in store && d.id == id;
        var k :| 0 <= k < |store| && store[k] == d;
        assert k > 0;
        assert store[1..][k - 1] == d;
      }
      RemoveIdShrinks(store[1..], id);
    }
  }

  /** Java's 64-bit `long` subtraction, wrapping on overflow. */
  function SubLong(a: int, b: int): (r: int)
    ensures -0x8000_0000_0000_0000 <= r < 0x8000_0000_0000_0000
    ensures -0x8000_0000_0000_0000 <= a - b < 0x8000_0000_0000_0000 ==> r == a - b
  {
    var m := (a - b + 0x8000_0000_0000_0000) % 0x1_0000_0000_0000_0000;
    m - 0x8000_0000_0000_0000
  }

  /** The records stamped at or after `cutoff`, in order. */
  function KeepSince(store: Store, cutoff: int): (r: Store)
    ensures |r| <= |store|
    ensures forall d :: d in r <==> d in store && d.timestamp >= cutoff
  {
    if |store| == 0 then []
    else if store[0].timestamp < cutoff then KeepSince(store[1..], cutoff)
    else [store[0]] + KeepSince(store[1..], cutoff)
  }

  /** The kept records of two stretches of the store are the two kept stretches in order. */
  lemma {:induction false} KeepSinceAppend(a: Store, b: Store, cutoff: int)
    ensures KeepSince(a + b, cutoff) == KeepSince(a, cutoff) + KeepSince(b, cutoff)
  {
    if |a| > 0 {
      assert (a + b)[1..] == a[1..] + b;
      KeepSinceAppend(a[1..], b, cutoff);
    } else {
      assert a + b == b;
    }
  }

  /** How many records are stamped before `cutoff`. */
  function CountOlder(store: Store, cutoff: int): nat {
    if |store| == 0 then 0
    else (if store[0].timestamp < cutoff then 1 else 0) + CountOlder(store[1..], cutoff)
  }

  lemma {:induction false} KeepSinceCount(store: Store, cutoff: int)
    ensures |KeepSince(store, cutoff)| + CountOlder(store, cutoff) == |store|
  {
    if |store| > 0 {
      KeepSinceCount(store[1..], cutoff);
    }
  }

  lemma {:induction false} KeepSinceKeepsValid(store: Store, cutoff: int)
    ensures Valid(store) ==> Valid(KeepSince(store, cutoff))
  {
    if |store| > 0 && Valid(store) {
      var tail := store[1..];
      TailValid(store);
      KeepSinceKeepsValid(tail, cutoff);
      var rest := KeepSince(tail, cutoff);
      if store[0].timestamp >= cutoff {
        forall k | 0 <= k < |rest| ensures store[0].id != rest[k].id {
          assert rest[k] in tail;
          var m :| 0 <= m < |tail| && tail[m] == rest[k];
          assert store[m + 1] == rest[k];
        }
        ConsValid(store[0], rest);
      }
    }
  }

  /**
   * deleteOldDistributions: drop the records stamped before `now - olderThan` (computed
   * in 64-bit arithmetic) and report how many went.
   */
  function DeleteOld(store: Store, olderThan: int, now: int): (r: (Store, nat))
    ensures var cutoff := SubLong(now, olderThan);
            && r.0 == KeepSince(store, cutoff)
            && (forall d :: d in r.0 <==> d in store && d.timestamp >= cutoff)
            && r.1 == CountOlder(store, cutoff)
            && r.1 == |store| - |r.0|
    ensures Valid(store) ==> Valid(r.0)
  {
    var cutoff := SubLong(now, olderThan);
    var kept := KeepSince(store, cutoff);
    KeepSinceCount(store, cutoff);
    KeepSinceKeepsValid(store, cutoff);
    (kept, |store| - |kept|)
  }

  /** Long.MAX_VALUE. */
  const LONG_MAX: int := 0x7FFF_FFFF_FFFF_FFFF

  lemma {:induction false} KeepSinceAll(store: Store, cutoff: int)
    requires forall k :: 0 <= k < |store| ==> store[k].timestamp >= cutoff
    ensures KeepSince(store, cutoff) == store
  {
    if |store| > 0 {
      var rest := store[1..];
      assert forall k :: 0 <= k < |rest| ==> rest[k] == store[k + 1];
      KeepSinceAll(rest, cutoff);
      assert store[0].timestamp >= cutoff;
      assert [store[0]] + rest == store;
    }
  }

  /**
   * "Older than Long.MAX_VALUE" deletes nothing: with the clock and every stamp
   * non-negative the cutoff lies below them all, which is why clearing everything has to
   * go through clearAllDistributions instead.
   */
  lemma UnboundedAgeDeletesNothing(store: Store, now: int)
    requires 0 <= now <= LONG_MAX
    requires forall k :: 0 <= k < |store| ==> store[k].timestamp >= 0
    ensures DeleteOld(store, LONG_MAX, now) == (store, 0)
  {
    assert SubLong(now, LONG_MAX) == now - LONG_MAX;
    KeepSinceAll(store, now - LONG_MAX);
  }

  /** The position of the first record with the id. */
  function FindId(store: Store, id: string): (r: Option<nat>)
    ensures r.None? <==> id !in Ids(store)
    ensures r.Some? ==> r.value < |store| && store[r.value].id == id
    ensures r.Some? ==> forall k :: 0 <= k < r.value ==> store[k].id != id
  {
    if |store| == 0 then None
    else if store[0].id == id then Some(0)
    else
      match FindId(store[1..], id)
      case None =>
        assert forall d :: d in store ==> d == store[0] || d in store[1..];
        None
      case Some(k) =>
        assert store[1..][k] in store;
        Some(k + 1)
  }

  /**
   * reissueDistribution: an unknown id yields nothing and changes nothing; a known id gives
   * a new active record for the same recipient and payload under a fresh id, and the old
   * record is kept, deactivated. Order afterwards: the others, the old record, the new one.
   */
  function Reissue(store: Store, id: string, freshId: string, now: int): (r: Option<(Store, Distribution)>)
    requires freshId !in Ids(store)
    ensures r.None? <==> id !in Ids(store)
    ensures r.Some? ==> exists k :: (0 <= k < |store| && store[k].id == id
              && (forall j :: 0 <= j < k ==> store[j].id != id)
              && r.value.1 == NewDistribution(store[k].username, store[k].cardData, freshId, now)
              && r.value.0 == RemoveId(store, id) + [store[k].(isActive := false), r.value.1])
    ensures r.Some? && Valid(store) ==> Valid(r.value.0)
  {
    match FindId(store, id)
    case None => None
    case Some(k) =>
      var prior := store[k];
      var renewed := NewDistribution(prior.username, prior.cardData, freshId, now);
      var retired := prior.(isActive := false);
      var s1 := Save(store, retired);
      assert s1 == RemoveId(store, id) + [retired];
      assert freshId !in Ids(s1) by {
        assert freshId != id by { assert prior in store; }
        forall d | d in s1 ensures d.id != freshId {
          if d != retired { assert d in store; }
        }
      }
      var s2 := Save(s1, renewed);
      assert s2 == s1 + [renewed];
      assert Valid(store) ==> LinkMatches(store[k]);
      assert s2 == RemoveId(store, id) + [store[k].(isActive := false), renewed];
      assert forall j :: 0 <= j < k ==> store[j].id != id;
      Some((s2, renewed))
  }

  /** The position of the first active record for the user. */
  function FindActiveUser(store: Store, username: string): (r: Option<nat>)
    ensures r.None? <==> forall d :: d in store ==> !(d.isActive && d.username == username)
    ensures r.Some? ==> r.value < |store| && store[r.value].isActive && store[r.value].username == username
    ensures r.Some? ==> forall k :: 0 <= k < r.value ==> !(store[k].isActive && store[k].username == username)
  {
    if |store| == 0 then None
    else if store[0].isActive && store[0].username == username then Some(0)
    else
      match FindActiveUser(store[1..], username)
      case None =>
        assert forall d :: d in store ==> d == store[0] || d in store[1..];
        None
      case Some(k) =>
        assert store[1..][k] in store;
        Some(k + 1)
  }

  /** findDistributionByUsername: the first active record for the user in stored order, or null. */
  function FindByUsername(store: Store, username: string): (r: Option<Distribution>)
    ensures r.None? <==> forall d :: d in store ==> !(d.isActive && d.username == username)
    ensures r.Some? ==> exists k :: (0 <= k < |store| && store[k] == r.value
              && r.value.isActive && r.value.username == username
              && forall j :: 0 <= j < k ==> !(store[j].isActive && store[j].username == username))
  {
    match FindActiveUser(store, username)
    case None => None
    case Some(k) => Some(store[k])
  }

  /** clearAllDistributions: the key is removed, so every later read sees an empty list. */
  function ClearAll(store: Store): (r: Store)
    ensures Ids(r) == {} && ActiveCount(r) == 0 && Valid(r)
  {
    []
  }

  /**
   * After a reissue of a record of a valid store, the active view holds the new record
   * and no record with the old id.
   */
  lemma ReissueActiveView(store: Store, id: string, freshId: string, now: int)
    requires Valid(store) && freshId !in Ids(store) && id in Ids(store)
    ensures var r := Reissue(store, id, freshId, now);
            && r.Some?
            && r.value.1 in ActiveOnly(r.value.0)
            && r.value.1.id != id
            && (forall d :: d in ActiveOnly(r.value.0) ==> d.id != id)
  {
    var r := Reissue(store, id, freshId, now);
    var k :| 0 <= k < |store| && store[k].id == id
              && r.value.1 == NewDistribution(store[k].username, store[k].cardData, freshId, now)
              && r.value.0 == RemoveId(store, id) + [store[k].(isActive := false), r.value.1];
    assert freshId != id by { assert store[k] in store; }
    var others := RemoveId(store, id);
    ActiveOnlyAppend(others, [store[k].(isActive := false), r.value.1]);
    assert ActiveOnly([store[k].(isActive := false), r.value.1]) == [r.value.1];
  }
}
