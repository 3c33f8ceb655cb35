/**
 * Duplicate detection over the contact store: walk the contacts in order,
 * and for each contact not yet placed in a group collect every other
 * unplaced contact that shares its phone, its non-empty email, or both its
 * first and last name; a contact with at least one such match heads a new
 * group, and every member of the group is marked processed.
 */
module Duplicates {
  import opened Contacts

  /** The match test against a group head. */
  predicate IsDuplicate(c: Contact, o: Contact) {
    c.details.phone == o.details.phone
    || (c.details.email != "" && c.details.email == o.details.email)
    || (c.details.firstName == o.details.firstName && c.details.lastName == o.details.lastName)
  }

  lemma IsDuplicateSymmetric(c: Contact, o: Contact)
    ensures IsDuplicate(c, o) <==> IsDuplicate(o, c)
  {
  }

  function Ids(g: seq<Contact>): set<int> {
    set c | c in g :: c.id
  }

  /** The contacts among cs[..n], other than position i, that are unprocessed
      and match cs[i], in store order. */
  function DupsOf(cs: seq<Contact>, i: nat, processed: set<int>, n: nat): (r: seq<Contact>)
    requires i < |cs| && n <= |cs|
    ensures forall c :: c in r ==> c in cs && c.id !in processed && IsDuplicate(cs[i], c)
    ensures forall j {:trigger cs[j] in r} ::
              0 <= j < n && j != i && cs[j].id !in processed && IsDuplicate(cs[i], cs[j]) ==> cs[j] in r
    decreases n
  {
    if n == 0 then []
    else
      DupsOf(cs, i, processed, n - 1)
      + (if n - 1 != i && cs[n - 1].id !in processed && IsDuplicate(cs[i], cs[n - 1]) then [cs[n - 1]] else [])
  }

  /** Every match collected for position i is the contact at some position
      before n other than i itself. */
  lemma {:induction false} DupsAtOtherPositions(cs: seq<Contact>, i: nat, processed: set<int>, n: nat)
    requires i < |cs| && n <= |cs|
    ensures forall c :: c in DupsOf(cs, i, processed, n) ==> exists j :: 0 <= j < n && j != i && cs[j] == c
    decreases n
  {
    if n > 0 {
      DupsAtOtherPositions(cs, i, processed, n - 1);
    }
  }

  /** The groups the walk produces from position i on, given the ids already processed. */
  function GroupsFrom(cs: seq<Contact>, i: nat, processed: set<int>): seq<seq<Contact>>
    requires i <= |cs|
    decreases |cs| - i
  {
    if i == |cs| then []
    else if cs[i].id in processed then GroupsFrom(cs, i + 1, processed)
    else
      var dups := DupsOf(cs, i, processed, |cs|);
      if |dups| > 0 then
        var group := [cs[i]] + dups;
        [group] + GroupsFrom(cs, i + 1, processed + Ids(group))
      else GroupsFrom(cs, i + 1, processed)
  }

  /** `findDuplicateContacts()` on the given store. */
  function DuplicateGroups(cs: seq<Contact>): seq<seq<Contact>> {
    GroupsFrom(cs, 0, {})
  }

  /** Every member of every group comes from the store; a group has at least two
      members and every member after the first matches the first. */
  predicate WellFormedGroup(g: seq<Contact>, cs: seq<Contact>) {
    |g| >= 2 && g[0] in cs
    && forall k :: 1 <= k < |g| ==> g[k] in cs && IsDuplicate(g[0], g[k])
  }

  predicate Unprocessed(g: seq<Contact>, processed: set<int>) {
    forall c :: c in g ==> c.id !in processed
  }

  lemma {:induction false} GroupsWellFormed(cs: seq<Contact>, i: nat, processed: set<int>)
    requires i <= |cs|
    ensures forall a :: 0 <= a < |GroupsFrom(cs, i, processed)| ==>
              WellFormedGroup(GroupsFrom(cs, i, processed)[a], cs)
              && Unprocessed(GroupsFrom(cs, i, processed)[a], processed)
    decreases |cs| - i
  {
    if i < |cs| {
      if cs[i].id in processed {
        GroupsWellFormed(cs, i + 1, processed);
      } else {
        var dups := DupsOf(cs, i, processed, |cs|);
        if |dups| > 0 {
          var group := [cs[i]] + dups;
          GroupsWellFormed(cs, i + 1, processed + Ids(group));
          assert forall k :: 1 <= k < |group| ==> group[k] in dups;
          assert WellFormedGroup(group, cs);
        } else {
          GroupsWellFormed(cs, i + 1, processed);
        }
      }
    }
  }

  lemma {:induction false} GroupsDisjointFrom(cs: seq<Contact>, i: nat, processed: set<int>)
    requires i <= |cs|
    ensures forall a, b :: 0 <= a < b < |GroupsFrom(cs, i, processed)| ==>
              Ids(GroupsFrom(cs, i, processed)[a]) !! Ids(GroupsFrom(cs, i, processed)[b])
    decreases |cs| - i
  {
    if i < |cs| {
      if cs[i].id in processed {
        GroupsDisjointFrom(cs, i + 1, processed);
      } else {
        var dups := DupsOf(cs, i, processed, |cs|);
        if |dups| > 0 {
          var group := [cs[i]] + dups;
          var rest := GroupsFrom(cs, i + 1, processed + Ids(group));
          GroupsDisjointFrom(cs, i + 1, processed + Ids(group));
          GroupsWellFormed(cs, i + 1, processed + Ids(group));
          var all := GroupsFrom(cs, i, processed);
          assert all == [group] + rest;
          forall a, b | 0 <= a < b < |all| ensures Ids(all[a]) !! Ids(all[b]) {
            if a == 0 {
              assert all[b] == rest[b - 1];
              assert Unprocessed(rest[b - 1], processed + Ids(group));
            } else {
              assert all[a] == rest[a - 1] && all[b] == rest[b - 1];
            }
          }
        } else {
          GroupsDisjointFrom(cs, i + 1, processed);
        }
      }
    }
  }

  /** Groups are pairwise disjoint; each has at least two members, all from the
      store, and every member after the first matches the first. */
  lemma DuplicateGroupsShape(cs: seq<Contact>)
    ensures forall a :: 0 <= a < |DuplicateGroups(cs)| ==> WellFormedGroup(DuplicateGroups(cs)[a], cs)
    ensures forall a, b :: 0 <= a < b < |DuplicateGroups(cs)| ==>
              Ids(DuplicateGroups(cs)[a]) !! Ids(DuplicateGroups(cs)[b])
  {
    GroupsWellFormed(cs, 0, {});
    GroupsDisjointFrom(cs, 0, {});
  }

  // ---------------------------------------------------------------------------
  // Order

  /** The store position of the first contact with `c`'s id (|cs| when there is none). */
  function Position(cs: seq<Contact>, c: Contact): (p: nat)
    ensures p <= |cs|
    decreases |cs|
  {
    if cs == [] then 0
    else if cs[0].id == c.id then 0
    else 1 + Position(cs[1..], c)
  }

  lemma {:induction false} PositionAt(cs: seq<Contact>, j: nat)
    requires UniqueIds(cs) && j < |cs|
    ensures Position(cs, cs[j]) == j
    decreases j
  {
    if j > 0 {
      assert cs[1..][j - 1] == cs[j];
      PositionAt(cs[1..], j - 1);
    }
  }

  /** The position depends only on the id. */
  lemma {:induction false} PositionOfId(cs: seq<Contact>, c: Contact, d: Contact)
    requires c.id == d.id
    ensures Position(cs, c) == Position(cs, d)
    decreases |cs|
  {
    if cs != [] && cs[0].id != c.id {
      PositionOfId(cs[1..], c, d);
    }
  }

  /** Each member of a group lies at a later store position than the one before it. */
  predicate InStoreOrder(g: seq<Contact>, cs: seq<Contact>) {
    forall k :: 0 < k < |g| ==> Position(cs, g[k - 1]) < Position(cs, g[k])
  }

  /** Store order between neighbours gives store order between any two members. */
  lemma {:induction false} InStoreOrderPairwise(g: seq<Contact>, cs: seq<Contact>)
    requires InStoreOrder(g, cs)
    ensures forall k, l :: 0 <= k < l < |g| ==> Position(cs, g[k]) < Position(cs, g[l])
    decreases |g|
  {
    if |g| > 1 {
      var init := g[..|g| - 1];
      assert InStoreOrder(init, cs) by {
        forall k | 0 < k < |init| ensures Position(cs, init[k - 1]) < Position(cs, init[k]) {
          assert init[k - 1] == g[k - 1] && init[k] == g[k];
        }
      }
      InStoreOrderPairwise(init, cs);
      forall k, l | 0 <= k < l < |g| ensures Position(cs, g[k]) < Position(cs, g[l]) {
        assert g[k] == init[k];
        if l < |g| - 1 {
          assert g[l] == init[l];
        } else if k < l - 1 {
          assert g[l - 1] == init[l - 1];
        }
      }
    }
  }

  /** What the walk has established before position i: no contact there is
      left unprocessed together with an unprocessed contact it matches. */
  predicate Settled(cs: seq<Contact>, i: nat, processed: set<int>) {
    forall j, k ::
      (0 <= j < |cs| && j < i && 0 <= k < |cs| && j != k && cs[j].id !in processed && cs[k].id !in processed)
      ==> !IsDuplicate(cs[j], cs[k])
  }

  lemma InStoreOrderSnoc(g: seq<Contact>, c: Contact, cs: seq<Contact>, m: nat)
    requires InStoreOrder(g, cs)
    requires forall d :: d in g ==> Position(cs, d) < m
    requires Position(cs, c) == m
    ensures InStoreOrder(g + [c], cs)
  {
    var h := g + [c];
    forall k | 0 < k < |h| ensures Position(cs, h[k - 1]) < Position(cs, h[k]) {
      assert h[k - 1] == g[k - 1] && g[k - 1] in g;
      if k < |g| {
        assert h[k] == g[k];
      }
    }
  }

  /** The matches collected for position i, among cs[..n], lie at other positions before n. */
  lemma DupsPositions(cs: seq<Contact>, i: nat, processed: set<int>, n: nat)
    requires UniqueIds(cs) && i < |cs| && n <= |cs|
    ensures forall c :: c in DupsOf(cs, i, processed, n) ==> Position(cs, c) < n && Position(cs, c) != i
  {
    DupsAtOtherPositions(cs, i, processed, n);
    forall c | c in DupsOf(cs, i, processed, n) ensures Position(cs, c) < n && Position(cs, c) != i {
      var j :| 0 <= j < n && j != i && cs[j] == c;
      PositionAt(cs, j);
    }
  }

  /** The matches collected for position i are listed in store order. */
  lemma {:induction false} DupsInStoreOrder(cs: seq<Contact>, i: nat, processed: set<int>, n: nat)
    requires UniqueIds(cs) && i < |cs| && n <= |cs|
    ensures InStoreOrder(DupsOf(cs, i, processed, n), cs)
    decreases n
  {
    if n > 0 {
      var prev := DupsOf(cs, i, processed, n - 1);
      DupsInStoreOrder(cs, i, processed, n - 1);
      if n - 1 != i && cs[n - 1].id !in processed && IsDuplicate(cs[i], cs[n - 1]) {
        DupsPositions(cs, i, processed, n - 1);
        PositionAt(cs, n - 1);
        InStoreOrderSnoc(prev, cs[n - 1], cs, n - 1);
      }
    }
  }

  /** Once every earlier contact is settled, the matches of an unprocessed
      contact all lie after it. */
  lemma DupsAfter(cs: seq<Contact>, i: nat, processed: set<int>)
    requires UniqueIds(cs) && i < |cs| && Settled(cs, i, processed) && cs[i].id !in processed
    ensures forall k :: 0 <= k < |DupsOf(cs, i, processed, |cs|)| ==> i < Position(cs, DupsOf(cs, i, processed, |cs|)[k])
  {
    var r := DupsOf(cs, i, processed, |cs|);
    DupsAtOtherPositions(cs, i, processed, |cs|);
    forall k | 0 <= k < |r| ensures i < Position(cs, r[k]) {
      assert r[k] in r;
      var j :| 0 <= j < |cs| && j != i && cs[j] == r[k];
      PositionAt(cs, j);
      IsDuplicateSymmetric(cs[i], cs[j]);
    }
  }

  /** The walk keeps `Settled` from one position to the next. */
  lemma SettledStep(cs: seq<Contact>, i: nat, processed: set<int>)
    requires i < |cs| && Settled(cs, i, processed)
    ensures cs[i].id in processed ==> Settled(cs, i + 1, processed)
    ensures cs[i].id !in processed && |DupsOf(cs, i, processed, |cs|)| == 0 ==> Settled(cs, i + 1, processed)
    ensures cs[i].id !in processed ==>
              Settled(cs, i + 1, processed + Ids([cs[i]] + DupsOf(cs, i, processed, |cs|)))
  {
    var dups := DupsOf(cs, i, processed, |cs|);
    var group := [cs[i]] + dups;
    assert cs[i] in group;
  }

  lemma InStoreOrderCons(c: Contact, g: seq<Contact>, cs: seq<Contact>)
    requires InStoreOrder(g, cs)
    requires forall k :: 0 <= k < |g| ==> Position(cs, c) < Position(cs, g[k])
    ensures InStoreOrder([c] + g, cs)
  {
    var h := [c] + g;
    forall k | 0 < k < |h| ensures Position(cs, h[k - 1]) < Position(cs, h[k]) {
      assert h[k] == g[k - 1];
      if k > 1 {
        assert h[k - 1] == g[k - 2];
      }
    }
  }

  /** A group formed at position i lists its members in store order, cs[i] first. */
  lemma GroupInStoreOrder(cs: seq<Contact>, i: nat, processed: set<int>)
    requires UniqueIds(cs) && i < |cs| && Settled(cs, i, processed) && cs[i].id !in processed
    ensures var group := [cs[i]] + DupsOf(cs, i, processed, |cs|);
            Position(cs, group[0]) == i && InStoreOrder(group, cs)
  {
    DupsInStoreOrder(cs, i, processed, |cs|);
    DupsAfter(cs, i, processed);
    PositionAt(cs, i);
    InStoreOrderCons(cs[i], DupsOf(cs, i, processed, |cs|), cs);
  }

  /** Non-empty groups in store order, with heads at positions from i on, increasing. */
  predicate OrderedGroups(gs: seq<seq<Contact>>, cs: seq<Contact>, i: nat) {
    (forall a :: 0 <= a < |gs| ==> |gs[a]| > 0 && i <= Position(cs, gs[a][0]) && InStoreOrder(gs[a], cs))
    && (forall a, b :: 0 <= a < b < |gs| ==> Position(cs, gs[a][0]) < Position(cs, gs[b][0]))
  }

  lemma OrderedGroupsWeaken(gs: seq<seq<Contact>>, cs: seq<Contact>, i: nat)
    requires OrderedGroups(gs, cs, i + 1)
    ensures OrderedGroups(gs, cs, i)
  {
  }

  lemma OrderedGroupsCons(group: seq<Contact>, rest: seq<seq<Contact>>, cs: seq<Contact>, i: nat)
    requires |group| > 0 && Position(cs, group[0]) == i && InStoreOrder(group, cs)
    requires OrderedGroups(rest, cs, i + 1)
    ensures OrderedGroups([group] + rest, cs, i)
  {
    var gs := [group] + rest;
    forall a | 0 <= a < |gs|
      ensures |gs[a]| > 0 && i <= Position(cs, gs[a][0]) && InStoreOrder(gs[a], cs)
    {
      if a > 0 {
        assert gs[a] == rest[a - 1];
      }
    }
    forall a, b | 0 <= a < b < |gs| ensures Position(cs, gs[a][0]) < Position(cs, gs[b][0]) {
      assert gs[b] == rest[b - 1];
      if a > 0 {
        assert gs[a] == rest[a - 1];
      }
    }
  }

  lemma {:induction false} GroupsInStoreOrder(cs: seq<Contact>, i: nat, processed: set<int>)
    requires UniqueIds(cs) && i <= |cs| && Settled(cs, i, processed)
    ensures OrderedGroups(GroupsFrom(cs, i, processed), cs, i)
    decreases |cs| - i
  {
    if i < |cs| {
      SettledStep(cs, i, processed);
      if cs[i].id in processed {
        GroupsInStoreOrder(cs, i + 1, processed);
        OrderedGroupsWeaken(GroupsFrom(cs, i + 1, processed), cs, i);
      } else {
        var dups := DupsOf(cs, i, processed, |cs|);
        if |dups| > 0 {
          var group := [cs[i]] + dups;
          var next := processed + Ids(group);
          GroupsInStoreOrder(cs, i + 1, next);
          GroupInStoreOrder(cs, i, processed);
          OrderedGroupsCons(group, GroupsFrom(cs, i + 1, next), cs, i);
        } else {
          GroupsInStoreOrder(cs, i + 1, processed);
          OrderedGroupsWeaken(GroupsFrom(cs, i + 1, processed), cs, i);
        }
      }
    }
  }

  /** In a store with unique ids, each group lists distinct contacts in store
      order, so its head is its earliest member, and the groups come in the
      store order of their heads. */
  lemma DuplicateGroupsInStoreOrder(cs: seq<Contact>)
    requires UniqueIds(cs)
    ensures var gs := DuplicateGroups(cs);
            (forall a :: 0 <= a < |gs| ==> |gs[a]| > 0 && InStoreOrder(gs[a], cs))
            && (forall a, b :: 0 <= a < b < |gs| ==> Position(cs, gs[a][0]) < Position(cs, gs[b][0]))
    ensures forall a, k, l :: 0 <= a < |DuplicateGroups(cs)| && 0 <= k < l < |DuplicateGroups(cs)[a]| ==>
              Position(cs, DuplicateGroups(cs)[a][k]) < Position(cs, DuplicateGroups(cs)[a][l])
              && DuplicateGroups(cs)[a][k].id != DuplicateGroups(cs)[a][l].id
  {
    GroupsInStoreOrder(cs, 0, {});
    var gs: seq<seq<Contact>> := DuplicateGroups(cs);
    forall a: int, k: int, l: int | 0 <= a < |gs| && 0 <= k < l < |gs[a]|
      ensures Position(cs, gs[a][k]) < Position(cs, gs[a][l]) && gs[a][k].id != gs[a][l].id
    {
      InStoreOrderPairwise(gs[a], cs);
      if gs[a][k].id == gs[a][l].id {
        PositionOfId(cs, gs[a][k], gs[a][l]);
      }
    }
  }

  /** The ids of every contact placed in some group. */
  function GroupedIds(gs: seq<seq<Contact>>): set<int>
    decreases |gs|
  {
    if gs == [] then {} else Ids(gs[0]) + GroupedIds(gs[1..])
  }

  lemma {:induction false} MatchedPairGroupedFrom(cs: seq<Contact>, i: nat, processed: set<int>, x: nat, y: nat)
    requires i <= x < |cs| && y < |cs| && x != y
    requires cs[x].id !in processed && cs[y].id !in processed
    requires IsDuplicate(cs[x], cs[y])
    ensures cs[x].id in GroupedIds(GroupsFrom(cs, i, processed))
            || cs[y].id in GroupedIds(GroupsFrom(cs, i, processed))
    decreases |cs| - i
  {
    if cs[i].id in processed {
      MatchedPairGroupedFrom(cs, i + 1, processed, x, y);
    } else {
      var dups := DupsOf(cs, i, processed, |cs|);
      if i == x {
        assert cs[y] in dups;
      }
      if |dups| > 0 {
        var group := [cs[i]] + dups;
        var all := GroupsFrom(cs, i, processed);
        assert all[0] == group && all[1..] == GroupsFrom(cs, i + 1, processed + Ids(group));
        if cs[x].id !in Ids(group) && cs[y].id !in Ids(group) {
          assert i != x;
          MatchedPairGroupedFrom(cs, i + 1, processed + Ids(group), x, y);
        } else {
          assert cs[x].id in Ids(all[0]) || cs[y].id in Ids(all[0]);
        }
      } else {
        assert i != x;
        MatchedPairGroupedFrom(cs, i + 1, processed, x, y);
      }
    }
  }

  /** No two contacts that match each other are both left out of every group. */
  lemma MatchedPairGrouped(cs: seq<Contact>, x: nat, y: nat)
    requires x < |cs| && y < |cs| && x != y
    requires IsDuplicate(cs[x], cs[y])
    ensures cs[x].id in GroupedIds(DuplicateGroups(cs)) || cs[y].id in GroupedIds(DuplicateGroups(cs))
  {
    MatchedPairGroupedFrom(cs, 0, {}, x, y);
  }
}
