/**
 * The earlier store, old_versions/db.py: a `messages` table only, with the
 * same insert and history query as db.py, plus a delete of one user's
 * messages. Because the id column is AUTOINCREMENT, SQLite's counter
 * survives deletions, so an id once handed out is never handed out again;
 * the ghost set `issued` records every id handed out so that this can be
 * stated.
 */
module LegacyStore {
  import opened History

  class Database {
    var messages: seq<Message>
    /** The largest id handed out so far (0 before the first insert). */
    var messageSeq: nat
    /** Every id handed out so far, deleted rows' ids included. */
    ghost var issued: set<nat>

    ghost predicate Valid()
      reads this
    {
      && IdsAscending(messages)
      && (forall m :: m in messages ==> m.id in issued)
      && (forall id :: id in issued ==> 1 <= id <= messageSeq)
    }

    /** `init_db()` on a new file: the table exists and is empty. */
    constructor ()
      ensures Valid()
      ensures messages == [] && messageSeq == 0 && issued == {}
    {
      messages := [];
      messageSeq := 0;
      issued := {};
    }

    /**
     * `save_message(user_id, role, content)`: one new row whose id was never
     * handed out before, not even to a row deleted since. The user's history
     * now ends with it; no other user's history moves.
     */
    method SaveMessage(userId: int, role: string, content: string)
      requires Valid()
      modifies this
      ensures Valid()
      ensures messageSeq == old(messageSeq) + 1
      ensures messages == old(messages) + [Message(messageSeq, userId, role, content)]
      ensures messageSeq !in old(issued) && issued == old(issued) + {messageSeq}
      ensures forall n: nat :: n >= 1 ==>
        GetUserHistory(userId, n) == old(GetUserHistory(userId, n - 1)) + [Entry(role, content)]
      ensures forall v, n: nat :: v != userId ==> GetUserHistory(v, n) == old(GetUserHistory(v, n))
    {
      var before := messages;
      var row := Message(messageSeq + 1, userId, role, content);
      messageSeq := messageSeq + 1;
      messages := messages + [row];
      issued := issued + {messageSeq};
      forall n: nat | n >= 1
        ensures UserHistory(messages, userId, n) == UserHistory(before, userId, n - 1) + [Entry(role, content)]
      {
        HistoryAfterInsert(before, row, n);
      }
      forall v, n: nat | v != userId
        ensures UserHistory(messages, v, n) == UserHistory(before, v, n)
      {
        OtherHistoryAfterInsert(before, row, v, n);
      }
    }

    /** `get_user_history(user_id, max_messages)`: the user's last `max_messages` messages, oldest first. */
    function GetUserHistory(userId: int, maxMessages: nat): (r: seq<Entry>)
      reads this
      ensures |r| <= maxMessages
      ensures r == Entries(Last(OfUser(messages, userId), maxMessages))
    {
      UserHistory(messages, userId, maxMessages)
    }

    /**
     * `clear_user_history(user_id)`: every row of the user goes, every other
     * row stays, with its id and in its place; the counter and the ids
     * handed out stay too. Afterwards the user's history is empty, every other
     * history is as it was, and clearing again would change nothing.
     */
    method ClearUserHistory(userId: int)
      requires Valid()
      modifies this
      ensures Valid()
      ensures messages == WithoutUser(old(messages), userId)
      ensures messageSeq == old(messageSeq) && issued == old(issued)
      ensures forall n: nat :: GetUserHistory(userId, n) == []
      ensures forall v, n: nat :: v != userId ==> GetUserHistory(v, n) == old(GetUserHistory(v, n))
      ensures WithoutUser(messages, userId) == messages
    {
      var before := messages;
      WhereAscending(before, userId, false);
      messages := WithoutUser(messages, userId);
      forall n: nat
        ensures UserHistory(messages, userId, n) == []
      {
        ClearedHistoryEmpty(before, userId, n);
      }
      forall v, n: nat | v != userId
        ensures UserHistory(messages, v, n) == UserHistory(before, v, n)
      {
        ClearKeepsOtherHistories(before, userId, v, n);
      }
      ClearIdempotent(before, userId);
    }
  }
}
