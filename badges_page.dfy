/**
 * The Badges page: the award step that stores newly earned badges, and the
 * split of the catalog into earned and unearned badges.
 */
module BadgesPage {
  import opened Seqs
  import opened Types
  import opened BadgeCatalog
  import opened BadgeRules

  /** `new Set(badges.map(b => b.badge_id))`. */
  function SavedIds(rows: seq<BadgeRow>): set<string> {
    set r | r in rows :: r.badgeId
  }

  function NotSaved(saved: set<string>): string -> bool {
    id => id !in saved
  }

  /** `earnedIds.filter(id => !savedIds.has(id))`: the badges still to be stored. */
  function NewBadgeIds(earned: seq<string>, saved: set<string>): seq<string> {
    Filter(earned, NotSaved(saved))
  }

  /**
   * The badges to store are the earned ones not yet saved, in the order they
   * were earned and each once.
   */
  lemma NewBadgeIdsMeaning(earned: seq<string>, saved: set<string>)
    ensures forall id :: id in NewBadgeIds(earned, saved) <==> id in earned && id !in saved
    ensures |NewBadgeIds(earned, saved)| <= |earned|
    ensures NoDup(earned) ==>
      NoDup(NewBadgeIds(earned, saved)) && OrderedAsIn(NewBadgeIds(earned, saved), earned)
  {
    if NoDup(earned) {
      FilterOrderedAsIn(earned, NotSaved(saved));
    }
  }

  /** Once every earned badge is saved, there is nothing left to store. */
  lemma NothingNewOnceSaved(earned: seq<string>, saved: set<string>)
    requires forall id :: id in earned ==> id in saved
    ensures NewBadgeIds(earned, saved) == []
  {
    var r := NewBadgeIds(earned, saved);
    FilterCount(earned, NotSaved(saved));
    assert multiset(r) == multiset{};
  }

  /** The rows that store the given badges for the user: one per badge, all owned by the user. */
  function RowsFor(userId: string, ids: seq<string>): (rows: seq<BadgeRow>)
    ensures |rows| == |ids|
    ensures forall r :: r in rows ==> r.userId == userId
    ensures SavedIds(rows) == set id | id in ids
  {
    var rows := seq(|ids|, i requires 0 <= i < |ids| => BadgeRow(userId, ids[i]));
    assert forall id :: id in ids ==> BadgeRow(userId, id) in rows by {
      forall id | id in ids ensures BadgeRow(userId, id) in rows {
        var i :| 0 <= i < |ids| && ids[i] == id;
        assert rows[i] == BadgeRow(userId, id);
      }
    }
    rows
  }

  /** Storing rows for some badges adds exactly those badges to the saved set. */
  lemma SavedIdsAfterInsert(rows: seq<BadgeRow>, userId: string, ids: seq<string>)
    ensures SavedIds(rows + RowsFor(userId, ids)) == SavedIds(rows) + set id | id in ids
  {
    var added := RowsFor(userId, ids);
    assert forall r :: r in rows + added <==> r in rows || r in added;
  }

  /** `eq('user_id', userId)`: the rows the store returns for one user. */
  function OwnedBy(userId: string): BadgeRow -> bool {
    (r: BadgeRow) => r.userId == userId
  }

  /**
   * One user's view of the badge store: the rows fetched for `owner`, to which
   * the award step appends. Other users' rows never enter it.
   */
  class BadgeLedger {
    const owner: string
    var rows: seq<BadgeRow>

    predicate Valid()
      reads this
    {
      forall r :: r in rows ==> r.userId == owner
    }

    /** Loads the user's rows from the whole badges table. */
    constructor(userId: string, table: seq<BadgeRow>)
      ensures owner == userId
      ensures rows == Filter(table, OwnedBy(userId))
      ensures Valid()
    {
      owner := userId;
      rows := Filter(table, OwnedBy(userId));
    }

    /**
     * The award effect: once transactions, goals and badges have all loaded, it
     * stores one row for the owner per earned badge the owner has not saved yet,
     * and stores nothing when there is none. Rows are only ever added.
     */
    method Reconcile(transactions: seq<Transaction>, goals: seq<Goal>,
                     txLoading: bool, goalsLoading: bool, badgesLoading: bool)
      returns (inserted: seq<BadgeRow>)
      requires Valid()
      modifies this
      ensures Valid()
      ensures rows == old(rows) + inserted
      ensures txLoading || goalsLoading || badgesLoading ==> inserted == []
      ensures !(txLoading || goalsLoading || badgesLoading) ==>
        inserted == RowsFor(owner, NewBadgeIds(EarnedIds(transactions, goals), SavedIds(old(rows))))
      ensures !(txLoading || goalsLoading || badgesLoading) ==>
        SavedIds(rows) == SavedIds(old(rows)) + set id | id in EarnedIds(transactions, goals)
    {
      if txLoading || goalsLoading || badgesLoading {
        return [];
      }
      var earnedIds := CheckEarnedBadgeIds(transactions, goals);
      var savedIds := set b | b in rows :: b.badgeId;
      var newIds := Filter(earnedIds, NotSaved(savedIds));
      NewBadgeIdsMeaning(earnedIds, savedIds);
      SavedIdsAfterInsert(rows, owner, newIds);
      if |newIds| == 0 {
        assert forall id :: id in earnedIds ==> id in savedIds;
        assert rows + [] == rows;
        return [];
      }
      inserted := RowsFor(owner, newIds);
      rows := rows + inserted;
    }
  }

  /** Another user's rows do not change which badges count as saved for this user. */
  lemma OtherUsersIgnored(userId: string, table: seq<BadgeRow>, other: BadgeRow)
    requires other.userId != userId
    ensures Filter(table + [other], OwnedBy(userId)) == Filter(table, OwnedBy(userId))
    ensures SavedIds(Filter(table, OwnedBy(userId))) == set r | r in table && r.userId == userId :: r.badgeId
  {
    FilterSnoc(table, other, OwnedBy(userId));
  }

  /** Awarding twice in a row on the same data stores nothing the second time. */
  lemma ReconcileIdempotent(rows: seq<BadgeRow>, userId: string, ts: seq<Transaction>, goals: seq<Goal>)
    ensures var earned := EarnedIds(ts, goals);
      var after := rows + RowsFor(userId, NewBadgeIds(earned, SavedIds(rows)));
      NewBadgeIds(earned, SavedIds(after)) == []
  {
    var earned := EarnedIds(ts, goals);
    var awarded := NewBadgeIds(earned, SavedIds(rows));
    NewBadgeIdsMeaning(earned, SavedIds(rows));
    SavedIdsAfterInsert(rows, userId, awarded);
    NothingNewOnceSaved(earned, SavedIds(rows + RowsFor(userId, awarded)));
  }

  function IsSaved(saved: set<string>): BadgeDefinition -> bool {
    (b: BadgeDefinition) => b.id in saved
  }

  function IsNotSaved(saved: set<string>): BadgeDefinition -> bool {
    (b: BadgeDefinition) => b.id !in saved
  }

  /** `BADGE_DEFINITIONS.filter(b => earnedIds.has(b.id))`. */
  function EarnedBadges(rows: seq<BadgeRow>): seq<BadgeDefinition> {
    Filter(BADGE_DEFINITIONS, IsSaved(SavedIds(rows)))
  }

  /** `BADGE_DEFINITIONS.filter(b => !earnedIds.has(b.id))`. */
  function UnearnedBadges(rows: seq<BadgeRow>): seq<BadgeDefinition> {
    Filter(BADGE_DEFINITIONS, IsNotSaved(SavedIds(rows)))
  }

  lemma CatalogEntriesDistinct()
    ensures NoDup(BADGE_DEFINITIONS)
  {
    CatalogIdsDistinct();
    forall i, j | 0 <= i < j < |BADGE_DEFINITIONS|
      ensures BADGE_DEFINITIONS[i] != BADGE_DEFINITIONS[j]
    {
      assert CatalogIds()[i] != CatalogIds()[j];
    }
  }

  /**
   * The earned and unearned lists split the catalog between them: each badge is
   * in exactly one, chosen by whether its id is saved, and both keep catalog order.
   */
  lemma CatalogPartition(rows: seq<BadgeRow>)
    ensures multiset(EarnedBadges(rows)) + multiset(UnearnedBadges(rows)) == multiset(BADGE_DEFINITIONS)
    ensures forall b :: b in EarnedBadges(rows) <==> b in BADGE_DEFINITIONS && b.id in SavedIds(rows)
    ensures forall b :: b in UnearnedBadges(rows) <==> b in BADGE_DEFINITIONS && b.id !in SavedIds(rows)
    ensures OrderedAsIn(EarnedBadges(rows), BADGE_DEFINITIONS)
    ensures OrderedAsIn(UnearnedBadges(rows), BADGE_DEFINITIONS)
  {
    var saved := SavedIds(rows);
    FilterPartition(BADGE_DEFINITIONS, IsSaved(saved), IsNotSaved(saved));
    CatalogEntriesDistinct();
    FilterOrderedAsIn(BADGE_DEFINITIONS, IsSaved(saved));
    FilterOrderedAsIn(BADGE_DEFINITIONS, IsNotSaved(saved));
  }
}
