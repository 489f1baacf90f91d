/**
 * The XP ledger: every award appends an `XpTransaction` row and raises the user's
 * `TotalXp` by the same amount, so a user's total is the sum of its ledger rows.
 */
module Ledger {
  import opened Wrappers
  import opened Clock
  import opened Entities

  /** The sum of the amounts of `userId`'s transactions. */
  function LedgerSum(log: seq<XpTransaction>, userId: int): int {
    if |log| == 0 then 0
    else LedgerSum(log[..|log| - 1], userId) + (if log[|log| - 1].userId == userId then log[|log| - 1].amount else 0)
  }

  /** The ledger invariant: every user's `TotalXp` equals the sum of its transactions. */
  ghost predicate Balanced(s: Store) {
    forall k :: 0 <= k < |s.users| ==> s.users[k].totalXp == LedgerSum(s.xpLog, s.users[k].id)
  }

  function TransactionIds(log: seq<XpTransaction>): seq<int> {
    seq(|log|, k requires 0 <= k < |log| => log[k].id)
  }

  /** Adds `amount` to the total of the user at index `k`. */
  function AddXp(users: seq<User>, k: nat, amount: int): (r: seq<User>)
    requires k < |users|
    ensures |r| == |users| && r[k] == users[k].(totalXp := users[k].totalXp + amount)
    ensures forall j :: 0 <= j < |users| && j != k ==> r[j] == users[j]
  {
    users[k := users[k].(totalXp := users[k].totalXp + amount)]
  }

  /**
   * An award (the Pomodoro completion path): one transaction row is appended and,
   * when the user exists, its `TotalXp` is raised by the amount; nothing else changes.
   */
  function Record(s: Store, userId: int, amount: int, sourceType: string, sourceId: Option<int>, now: Instant): (r: Store)
    ensures r.xpLog == s.xpLog + [XpTransaction(FreshId(TransactionIds(s.xpLog)), userId, amount, sourceType, sourceId, now)]
    ensures |r.users| == |s.users|
    ensures forall j :: 0 <= j < |s.users| ==>
      r.users[j] == (if UserIndex(s.users, userId) == Some(j) then s.users[j].(totalXp := s.users[j].totalXp + amount) else s.users[j])
    ensures r == s.(users := r.users, xpLog := r.xpLog)
  {
    var txn := XpTransaction(FreshId(TransactionIds(s.xpLog)), userId, amount, sourceType, sourceId, now);
    match UserIndex(s.users, userId)
    case None => s.(xpLog := s.xpLog + [txn])
    case Some(k) => s.(users := AddXp(s.users, k, amount), xpLog := s.xpLog + [txn])
  }

  /** Appending one row changes exactly its owner's sum, by its amount. */
  lemma LedgerSumSnoc(log: seq<XpTransaction>, t: XpTransaction, userId: int)
    ensures LedgerSum(log + [t], userId) == LedgerSum(log, userId) + (if t.userId == userId then t.amount else 0)
  {
    assert (log + [t])[..|log + [t]| - 1] == log;
  }

  /** Recording an award keeps every user's total equal to its ledger sum. */
  lemma RecordKeepsBalanced(s: Store, userId: int, amount: int, sourceType: string, sourceId: Option<int>, now: Instant)
    requires UniqueUserIds(s.users) && Balanced(s)
    ensures Balanced(Record(s, userId, amount, sourceType, sourceId, now))
  {
    var r := Record(s, userId, amount, sourceType, sourceId, now);
    var t := r.xpLog[|s.xpLog|];
    forall k | 0 <= k < |r.users| ensures r.users[k].totalXp == LedgerSum(r.xpLog, r.users[k].id) {
      LedgerSumSnoc(s.xpLog, t, s.users[k].id);
      if s.users[k].id == userId {
        assert UserIndex(s.users, userId) == Some(k);
      }
    }
  }
}
