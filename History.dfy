/**
 * The `messages` table and the query behind `get_user_history`, shared by the
 * current store (db.py) and the earlier one (old_versions/db.py): both hold
 * the same rows and run the same `SELECT … WHERE user_id = ? ORDER BY id DESC
 * LIMIT ?`, then hand the rows back in reverse.
 *
 * The table is a sequence of rows in insertion order; AUTOINCREMENT makes that
 * the ascending id order (`IdsAscending`), which the stores keep as part of
 * their invariant.
 */
module History {

  /** A row of `messages(id, user_id, role, content)`. */
  datatype Message = Message(id: nat, userId: int, role: string, content: string)

  /** One element of the list `get_user_history` returns: `{"role": role, "content": content}`. */
  datatype Entry = Entry(role: string, content: string)

  /** The rows stand in strictly ascending id order. */
  predicate IdsAscending(msgs: seq<Message>)
  {
    forall i, j :: 0 <= i < j < |msgs| ==> msgs[i].id < msgs[j].id
  }

  /**
   * The rows owned by `u` (when `mine`) or by anyone else (otherwise), in
   * table order: `WHERE user_id = u`, and what `DELETE … WHERE user_id = u`
   * leaves behind.
   */
  function Where(msgs: seq<Message>, u: int, mine: bool): (r: seq<Message>)
    ensures |r| <= |msgs|
    ensures forall m :: m in r <==> m in msgs && (m.userId == u) == mine
  {
    if msgs == [] then []
    else
      var init, last := msgs[..|msgs| - 1], msgs[|msgs| - 1];
      assert msgs == init + [last];
      Where(init, u, mine) + (if (last.userId == u) == mine then [last] else [])
  }

  function OfUser(msgs: seq<Message>, u: int): seq<Message>
  {
    Where(msgs, u, true)
  }

  function WithoutUser(msgs: seq<Message>, u: int): seq<Message>
  {
    Where(msgs, u, false)
  }

  /** `WHERE user_id = u ORDER BY id DESC LIMIT n`: the user's rows from the newest back, n at most. */
  function Newest(msgs: seq<Message>, u: int, n: nat): (r: seq<Message>)
    ensures |r| <= n
    ensures forall m :: m in r ==> m in msgs && m.userId == u
  {
    if msgs == [] || n == 0 then []
    else
      var init, last := msgs[..|msgs| - 1], msgs[|msgs| - 1];
      assert msgs == init + [last];
      if last.userId == u then [last] + Newest(init, u, n - 1) else Newest(init, u, n)
  }

  function Reverse<T>(s: seq<T>): (r: seq<T>)
    ensures |r| == |s|
    ensures forall i :: 0 <= i < |s| ==> r[i] == s[|s| - 1 - i]
  {
    if s == [] then [] else Reverse(s[1..]) + [s[0]]
  }

  function Entries(rows: seq<Message>): seq<Entry>
  {
    seq(|rows|, i requires 0 <= i < |rows| => Entry(rows[i].role, rows[i].content))
  }

  /** The last `n` elements of `s`, or all of it when it is shorter. */
  function Last<T>(s: seq<T>, n: nat): seq<T>
  {
    if n < |s| then s[|s| - n..] else s
  }

  /** `get_user_history(u, n)`: the newest `n` rows of the user, put back into chronological order. */
  function UserHistory(msgs: seq<Message>, u: int, n: nat): (r: seq<Entry>)
    ensures |r| <= n
    ensures r == Entries(Last(OfUser(msgs, u), n))
  {
    NewestIsWindow(msgs, u, n);
    Entries(Reverse(Newest(msgs, u, n)))
  }

  /** The history always has min(n, count) entries, count being how many rows the user owns. */
  lemma HistoryLength(msgs: seq<Message>, u: int, n: nat)
    ensures |UserHistory(msgs, u, n)| == if n < |OfUser(msgs, u)| then n else |OfUser(msgs, u)|
  {
  }

  // ---------------------------------------------------------------------------
  // The query and its reference reading

  /** Reading newest-first with a limit and reversing gives the last `n` of the user's rows in table order. */
  lemma {:induction false} NewestIsWindow(msgs: seq<Message>, u: int, n: nat)
    ensures Reverse(Newest(msgs, u, n)) == Last(OfUser(msgs, u), n)
  {
    if msgs == [] || n == 0 {
    } else {
      var init, last := msgs[..|msgs| - 1], msgs[|msgs| - 1];
      if last.userId == u {
        NewestIsWindow(init, u, n - 1);
        ReverseCons(last, Newest(init, u, n - 1));
        LastSnoc(OfUser(init, u), last, n);
      } else {
        NewestIsWindow(init, u, n);
      }
    }
  }

  lemma ReverseCons<T>(x: T, s: seq<T>)
    ensures Reverse([x] + s) == Reverse(s) + [x]
  {
  }

  lemma LastSnoc<T>(s: seq<T>, x: T, n: nat)
    requires n >= 1
    ensures Last(s + [x], n) == Last(s, n - 1) + [x]
  {
    if n - 1 < |s| {
      assert (s + [x])[|s| + 1 - n..] == s[|s| - (n - 1)..] + [x];
    }
  }

  /** Filtering keeps the ascending id order. */
  lemma {:induction false} WhereAscending(msgs: seq<Message>, u: int, mine: bool)
    requires IdsAscending(msgs)
    ensures IdsAscending(Where(msgs, u, mine))
  {
    if msgs != [] {
      var init, last := msgs[..|msgs| - 1], msgs[|msgs| - 1];
      assert IdsAscending(init);
      WhereAscending(init, u, mine);
      var w := Where(init, u, mine);
      forall i | 0 <= i < |w| ensures w[i].id < last.id {
        assert w[i] in init;
      }
    }
  }

  /** `ORDER BY id DESC`: the rows the query reads come newest first. */
  lemma {:induction false} NewestDescending(msgs: seq<Message>, u: int, n: nat)
    requires IdsAscending(msgs)
    ensures forall i, j :: 0 <= i < j < |Newest(msgs, u, n)| ==> Newest(msgs, u, n)[i].id > Newest(msgs, u, n)[j].id
  {
    if msgs != [] && n != 0 {
      var init, last := msgs[..|msgs| - 1], msgs[|msgs| - 1];
      assert IdsAscending(init);
      if last.userId == u {
        NewestDescending(init, u, n - 1);
        var tail := Newest(init, u, n - 1);
        forall j | 0 <= j < |tail| ensures tail[j].id < last.id {
          assert tail[j] in init;
        }
      } else {
        NewestDescending(init, u, n);
      }
    }
  }

  /** The history window holds rows of the user only, oldest first. */
  lemma HistoryWindow(msgs: seq<Message>, u: int, n: nat)
    requires IdsAscending(msgs)
    ensures IdsAscending(Last(OfUser(msgs, u), n))
    ensures forall w :: w in Last(OfUser(msgs, u), n) ==> w in msgs && w.userId == u
  {
    var all := OfUser(msgs, u);
    WhereAscending(msgs, u, true);
    var k := |all| - |Last(all, n)|;
    assert Last(all, n) == all[k..];
    assert IdsAscending(all[k..]) by {
      forall i, j | 0 <= i < j < |all| - k ensures all[k..][i].id < all[k..][j].id {
        assert all[k..][i] == all[k + i] && all[k..][j] == all[k + j];
      }
    }
    forall w | w in all[k..] ensures w in all {
      var j :| 0 <= j < |all| - k && all[k..][j] == w;
      assert w == all[k + j];
    }
  }

  /** No row of the user left out of the history window is newer than a row inside it. */
  lemma HistoryWindowIsNewest(msgs: seq<Message>, u: int, n: nat, m: Message, w: Message)
    requires IdsAscending(msgs)
    requires m in msgs && m.userId == u && m !in Last(OfUser(msgs, u), n)
    requires w in Last(OfUser(msgs, u), n)
    ensures m.id < w.id
  {
    var all := OfUser(msgs, u);
    WhereAscending(msgs, u, true);
    var k := |all| - |Last(all, n)|;
    assert Last(all, n) == all[k..];
    assert m in all;
    var i :| 0 <= i < |all| && all[i] == m;
    var j :| 0 <= j < |all[k..]| && all[k..][j] == w;
    assert i < k;
    assert all[k + j] == w;
  }

  // ---------------------------------------------------------------------------
  // Inserting a row

  /** Once a row is inserted, any history of its owner of one entry or more ends with it. */
  lemma HistoryAfterInsert(msgs: seq<Message>, m: Message, n: nat)
    requires n >= 1
    ensures UserHistory(msgs + [m], m.userId, n) == UserHistory(msgs, m.userId, n - 1) + [Entry(m.role, m.content)]
  {
    var all := msgs + [m];
    assert all[..|all| - 1] == msgs;
    assert Newest(all, m.userId, n) == [m] + Newest(msgs, m.userId, n - 1);
    ReverseCons(m, Newest(msgs, m.userId, n - 1));
  }

  /** Inserting a row does not change any other user's history. */
  lemma OtherHistoryAfterInsert(msgs: seq<Message>, m: Message, v: int, n: nat)
    requires v != m.userId
    ensures UserHistory(msgs + [m], v, n) == UserHistory(msgs, v, n)
  {
    var all := msgs + [m];
    assert all[..|all| - 1] == msgs;
  }

  // ---------------------------------------------------------------------------
  // Deleting one user's rows

  /** After the user's rows are deleted, the user's history is empty. */
  lemma ClearedHistoryEmpty(msgs: seq<Message>, u: int, n: nat)
    ensures UserHistory(WithoutUser(msgs, u), u, n) == []
  {
    ClearedRowsGone(msgs, u);
  }

  /** No row of the user survives the deletion. */
  lemma {:induction false} ClearedRowsGone(msgs: seq<Message>, u: int)
    ensures OfUser(WithoutUser(msgs, u), u) == []
  {
    if msgs != [] {
      var init, last := msgs[..|msgs| - 1], msgs[|msgs| - 1];
      ClearedRowsGone(init, u);
      var rest := WithoutUser(msgs, u);
      if last.userId != u {
        assert rest == WithoutUser(init, u) + [last];
        assert rest[..|rest| - 1] == WithoutUser(init, u);
      } else {
        assert rest == WithoutUser(init, u);
      }
    }
  }

  /** Deleting one user's rows leaves every other user's rows, ids and order as they were. */
  lemma {:induction false} ClearKeepsOthers(msgs: seq<Message>, u: int, v: int)
    requires v != u
    ensures OfUser(WithoutUser(msgs, u), v) == OfUser(msgs, v)
  {
    if msgs != [] {
      var init, last := msgs[..|msgs| - 1], msgs[|msgs| - 1];
      ClearKeepsOthers(init, u, v);
      var rest := WithoutUser(msgs, u);
      if last.userId != u {
        assert rest == WithoutUser(init, u) + [last];
        assert rest[..|rest| - 1] == WithoutUser(init, u);
        assert OfUser(rest, v) == OfUser(WithoutUser(init, u), v) + (if last.userId == v then [last] else []);
      } else {
        assert rest == WithoutUser(init, u);
      }
    }
  }

  /** Hence every other user's history is unchanged, whatever its length. */
  lemma ClearKeepsOtherHistories(msgs: seq<Message>, u: int, v: int, n: nat)
    requires v != u
    ensures UserHistory(WithoutUser(msgs, u), v, n) == UserHistory(msgs, v, n)
  {
    ClearKeepsOthers(msgs, u, v);
  }

  /** Deleting the same user's rows twice leaves what deleting them once does. */
  lemma {:induction false} ClearIdempotent(msgs: seq<Message>, u: int)
    ensures WithoutUser(WithoutUser(msgs, u), u) == WithoutUser(msgs, u)
  {
    if msgs != [] {
      var init, last := msgs[..|msgs| - 1], msgs[|msgs| - 1];
      ClearIdempotent(init, u);
      var rest := WithoutUser(msgs, u);
      if last.userId != u {
        assert rest == WithoutUser(init, u) + [last];
        assert rest[..|rest| - 1] == WithoutUser(init, u);
        assert WithoutUser(rest, u) == WithoutUser(WithoutUser(init, u), u) + [last];
      } else {
        assert rest == WithoutUser(init, u);
      }
    }
  }
}
