/**
 * The store of db.py: the `messages` and `transactions` tables of one SQLite
 * file, each with an AUTOINCREMENT id. Rows are only ever inserted. The
 * connection each call opens and closes, and the SQL text, are not modelled;
 * a table is the sequence of its rows in insertion order and each
 * AUTOINCREMENT counter (SQLite's `sqlite_sequence` entry) is a field.
 */
module Store {
  import opened History
  import opened TransactionParser

  /** A row of `transactions(id, user_id, tipo, descricao, categoria, valor, data)`. */
  datatype TransactionRow = TransactionRow(
    id: nat, userId: int, tipo: string, descricao: string, categoria: string, valor: Decimal, data: string)

  predicate TransactionIdsAscending(rows: seq<TransactionRow>)
  {
    forall i, j :: 0 <= i < j < |rows| ==> rows[i].id < rows[j].id
  }

  class Database {
    var messages: seq<Message>
    var transactions: seq<TransactionRow>
    /** The largest id each table has handed out so far (0 before the first insert). */
    var messageSeq: nat
    var transactionSeq: nat

    /** Rows stand in ascending id order and no id exceeds its table's counter. */
    ghost predicate Valid()
      reads this
    {
      && IdsAscending(messages)
      && (forall m :: m in messages ==> 1 <= m.id <= messageSeq)
      && TransactionIdsAscending(transactions)
      && (forall t :: t in transactions ==> 1 <= t.id <= transactionSeq)
    }

    /** `init_db()` on a new file: both tables exist and are empty. */
    constructor ()
      ensures Valid()
      ensures messages == [] && transactions == []
      ensures messageSeq == 0 && transactionSeq == 0
    {
      messages := [];
      transactions := [];
      messageSeq := 0;
      transactionSeq := 0;
    }

    /**
     * `save_message(user_id, role, content)`: one new row with the next id,
     * larger than every id before it; nothing else changes. The user's
     * history now ends with the new message, and no other user's history moves.
     */
    method SaveMessage(userId: int, role: string, content: string)
      requires Valid()
      modifies this
      ensures Valid()
      ensures messageSeq == old(messageSeq) + 1
      ensures messages == old(messages) + [Message(messageSeq, userId, role, content)]
      ensures forall m :: m in old(messages) ==> m.id < messageSeq
      ensures transactions == old(transactions) && transactionSeq == old(transactionSeq)
      ensures forall n: nat :: n >= 1 ==>
        GetUserHistory(userId, n) == old(GetUserHistory(userId, n - 1)) + [Entry(role, content)]
      ensures forall v, n: nat :: v != userId ==> GetUserHistory(v, n) == old(GetUserHistory(v, n))
    {
      var before := messages;
      var row := Message(messageSeq + 1, userId, role, content);
      messageSeq := messageSeq + 1;
      messages := messages + [row];
      forall n: nat | n >= 1
        ensures UserHistory(messages, userId, n) == UserHistory(before, userId, n - 1) + [Entry(role, content)]
      {
        HistoryAfterInsert(before, row, n);
      }
      forall v, n: nat | v != userId
        ensures UserHistory(messages, v, n) == UserHistory(before, v, n)
      {
        OtherHistoryAfterInsert(before, row, v, n);
      }
    }

    /**
     * `get_user_history(user_id, max_messages)`: the user's last
     * `max_messages` messages, oldest first, as (role, content).
     */
    function GetUserHistory(userId: int, maxMessages: nat): (r: seq<Entry>)
      reads this
      ensures |r| <= maxMessages
      ensures r == Entries(Last(OfUser(messages, userId), maxMessages))
    {
      UserHistory(messages, userId, maxMessages)
    }

    /**
     * `save_transaction(user_id, tipo, descricao, categoria, valor, data)`:
     * one new row carrying the six values and the next id; the messages
     * table is untouched.
     */
    method SaveTransaction(userId: int, tipo: string, descricao: string, categoria: string, valor: Decimal, data: string)
      requires Valid()
      modifies this
      ensures Valid()
      ensures transactionSeq == old(transactionSeq) + 1
      ensures transactions == old(transactions) + [TransactionRow(transactionSeq, userId, tipo, descricao, categoria, valor, data)]
      ensures forall t :: t in old(transactions) ==> t.id < transactionSeq
      ensures messages == old(messages) && messageSeq == old(messageSeq)
    {
      transactionSeq := transactionSeq + 1;
      transactions := transactions + [TransactionRow(transactionSeq, userId, tipo, descricao, categoria, valor, data)];
    }
  }
}
