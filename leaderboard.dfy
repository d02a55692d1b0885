/** The leaderboard query: the rows it selects, the order it sorts them in,
    and the entries built from them. */
module LeaderboardQuery {
  import opened MealRecord
  import opened MealTable

  /** The two orders the leaderboard offers. */
  datatype SortKey = ByWins | ByWinPct

  /** Only "win_pct" and "wins" name an order; "win_pct" is compared first. */
  function ParseSortKey(s: string): (r: Option<SortKey>)
    ensures r == Some(ByWinPct) <==> s == "win_pct"
    ensures r == Some(ByWins) <==> s == "wins"
    ensures r.None? <==> s != "win_pct" && s != "wins"
  {
    if s == "win_pct" then Some(ByWinPct)
    else if s == "wins" then Some(ByWins)
    else None
  }

  /** `WHERE deleted = false AND battles > 0`. */
  predicate OnLeaderboard(row: Row)
  {
    !row.deleted && row.battles > 0
  }

  /** One row of the query's result; `winRatio` is `wins * 1.0 / battles`. */
  datatype QueryRow = QueryRow(
    id: int,
    meal: string,
    cuisine: string,
    price: real,
    difficulty: string,
    battles: int,
    wins: int,
    winRatio: real)

  function QueryRowOf(id: int, row: Row): QueryRow
    requires row.battles > 0
  {
    QueryRow(id, row.meal, row.cuisine, row.price, row.difficulty, row.battles, row.wins,
             row.wins as real / row.battles as real)
  }

  /** A query row that is the row of the table with that id, within [lo, hi),
      and on the leaderboard. */
  predicate FromTable(rows: map<int, Row>, lo: int, hi: int, y: QueryRow)
  {
    lo <= y.id < hi && y.id in rows && OnLeaderboard(rows[y.id]) && y == QueryRowOf(y.id, rows[y.id])
  }

  /** The table walk of the query: the ids in [lo, hi), in order, whose rows
      are on the leaderboard. */
  function Scan(rows: map<int, Row>, lo: int, hi: int): (q: seq<QueryRow>)
    decreases hi - lo
    ensures forall k :: 0 <= k < |q| ==> FromTable(rows, lo, hi, q[k])
    ensures forall i, j :: 0 <= i < j < |q| ==> q[i].id < q[j].id
  {
    if lo >= hi then []
    else
      var rest := Scan(rows, lo + 1, hi);
      assert forall k :: 0 <= k < |rest| ==> FromTable(rows, lo, hi, rest[k]) && lo < rest[k].id;
      if lo in rows && OnLeaderboard(rows[lo]) then [QueryRowOf(lo, rows[lo])] + rest
      else rest
  }

  /** The table walk misses no row of [lo, hi) that is on the leaderboard. */
  lemma {:induction false} ScanComplete(rows: map<int, Row>, lo: int, hi: int, id: int)
    requires lo <= id < hi && id in rows && OnLeaderboard(rows[id])
    ensures QueryRowOf(id, rows[id]) in Scan(rows, lo, hi)
    decreases hi - lo
  {
    var q := Scan(rows, lo, hi);
    var rest := Scan(rows, lo + 1, hi);
    if id == lo {
      assert q[0] == QueryRowOf(id, rows[id]);
    } else {
      ScanComplete(rows, lo + 1, hi, id);
      var k :| 0 <= k < |rest| && rest[k] == QueryRowOf(id, rows[id]);
      if lo in rows && OnLeaderboard(rows[lo]) {
        assert q[k + 1] == rest[k];
      }
    }
  }

  /** The column an `ORDER BY ... DESC` compares. */
  function Rank(key: SortKey, q: QueryRow): real
  {
    match key
    case ByWins => q.wins as real
    case ByWinPct => q.winRatio
  }

  ghost predicate SortedBy(key: SortKey, s: seq<QueryRow>)
  {
    forall i, j :: 0 <= i < j < |s| ==> Rank(key, s[i]) >= Rank(key, s[j])
  }

  predicate DistinctIds(s: seq<QueryRow>)
  {
    forall i, j :: 0 <= i < j < |s| ==> s[i].id != s[j].id
  }

  /** Inserts one row into a list sorted in descending order, in front of
      the first row that does not rank higher. */
  function Insert(key: SortKey, x: QueryRow, s: seq<QueryRow>): (r: seq<QueryRow>)
    ensures multiset(r) == multiset(s) + multiset{x}
  {
    if s == [] then [x]
    else if Rank(key, x) >= Rank(key, s[0]) then [x] + s
    else
      assert s == [s[0]] + s[1..];
      [s[0]] + Insert(key, x, s[1..])
  }

  /** A bound on the ranks of the list and of the new row bounds the ranks
      of the list after insertion. */
  lemma {:induction false} InsertBounded(key: SortKey, x: QueryRow, s: seq<QueryRow>, b: real)
    requires Rank(key, x) <= b
    requires forall k :: 0 <= k < |s| ==> Rank(key, s[k]) <= b
    ensures forall k :: 0 <= k < |Insert(key, x, s)| ==> Rank(key, Insert(key, x, s)[k]) <= b
  {
    if s != [] && Rank(key, x) < Rank(key, s[0]) {
      InsertBounded(key, x, s[1..], b);
    }
  }

  /** Inserting into a sorted list keeps it sorted. */
  lemma {:induction false} InsertSorted(key: SortKey, x: QueryRow, s: seq<QueryRow>)
    requires SortedBy(key, s)
    ensures SortedBy(key, Insert(key, x, s))
  {
    if s != [] && Rank(key, x) < Rank(key, s[0]) {
      var rest := Insert(key, x, s[1..]);
      InsertSorted(key, x, s[1..]);
      InsertBounded(key, x, s[1..], Rank(key, s[0]));
      assert Insert(key, x, s) == [s[0]] + rest;
    }
  }

  /** A row of the list after insertion is the new row or a row of the list. */
  lemma InsertMember(key: SortKey, x: QueryRow, s: seq<QueryRow>, y: QueryRow)
    ensures y in Insert(key, x, s) ==> y == x || y in s
  {
    if y in Insert(key, x, s) {
      assert y in multiset(Insert(key, x, s));
    }
  }

  /** Inserting a row whose id is not yet in the list keeps the ids distinct. */
  lemma {:induction false} InsertDistinct(key: SortKey, x: QueryRow, s: seq<QueryRow>)
    requires DistinctIds(s)
    requires forall k :: 0 <= k < |s| ==> s[k].id != x.id
    ensures DistinctIds(Insert(key, x, s))
  {
    if s == [] {
    } else if Rank(key, x) >= Rank(key, s[0]) {
      var r := [x] + s;
      forall i, j | 0 <= i < j < |r| ensures r[i].id != r[j].id {
        assert r[j] == s[j - 1];
        if i > 0 { assert r[i] == s[i - 1]; }
      }
    } else {
      var t := s[1..];
      var rest := Insert(key, x, t);
      InsertDistinct(key, x, t);
      forall j | 0 <= j < |rest| ensures rest[j].id != s[0].id {
        InsertMember(key, x, t, rest[j]);
        if rest[j] != x {
          var k :| 0 <= k < |t| && t[k] == rest[j];
          assert s[k + 1] == rest[j];
        }
      }
      var r := [s[0]] + rest;
      assert Insert(key, x, s) == r;
      forall i, j | 0 <= i < j < |r| ensures r[i].id != r[j].id {
        assert r[j] == rest[j - 1];
        if i > 0 { assert r[i] == rest[i - 1]; }
      }
    }
  }

  /** The tail of a list with distinct ids has distinct ids, none of them
      the head's. */
  lemma TailDistinct(s: seq<QueryRow>)
    requires s != [] && DistinctIds(s)
    ensures DistinctIds(s[1..])
    ensures forall y :: y in multiset(s[1..]) ==> y.id != s[0].id
  {
    forall y | y in multiset(s[1..]) ensures y.id != s[0].id {
      var k :| 0 <= k < |s[1..]| && s[1..][k] == y;
      assert s[k + 1] == y;
    }
  }

  /** `ORDER BY <key> DESC`: a descending sort that permutes its input; the
      order among rows with equal keys is not part of its promise. */
  function SortDesc(key: SortKey, s: seq<QueryRow>): (r: seq<QueryRow>)
    ensures SortedBy(key, r)
    ensures multiset(r) == multiset(s)
    ensures DistinctIds(s) ==> DistinctIds(r)
  {
    if s == [] then []
    else
      assert s == [s[0]] + s[1..];
      var rest := SortDesc(key, s[1..]);
      InsertSorted(key, s[0], rest);
      SortDescDistinctStep(key, s, rest);
      Insert(key, s[0], rest)
  }

  /** The induction step of SortDesc's distinctness. */
  lemma SortDescDistinctStep(key: SortKey, s: seq<QueryRow>, rest: seq<QueryRow>)
    requires s != []
    requires multiset(rest) == multiset(s[1..])
    requires DistinctIds(s[1..]) ==> DistinctIds(rest)
    ensures DistinctIds(s) ==> DistinctIds(Insert(key, s[0], rest))
  {
    if DistinctIds(s) {
      TailDistinct(s);
      forall k | 0 <= k < |rest| ensures rest[k].id != s[0].id {
        assert rest[k] in multiset(rest);
      }
      InsertDistinct(key, s[0], rest);
    }
  }

  /** The whole query: the table walk over the ids below `nextId`, sorted.
      Its result is one of the answers the database may give. */
  function Fetch(rows: map<int, Row>, nextId: int, key: SortKey): (r: seq<QueryRow>)
    ensures IsFetchResult(rows, nextId, key, r)
  {
    assert DistinctIds(Scan(rows, 1, nextId));
    SortDesc(key, Scan(rows, 1, nextId))
  }

  /** One leaderboard entry, as the loop over the fetched rows builds it. */
  datatype Entry = Entry(
    id: int,
    meal: string,
    cuisine: string,
    price: real,
    difficulty: string,
    battles: int,
    wins: int,
    winPct: real)

  /** Copies the columns and turns the ratio into a percentage. */
  function EntryOf(q: QueryRow): (e: Entry)
    ensures e.id == q.id && e.meal == q.meal && e.cuisine == q.cuisine && e.price == q.price
    ensures e.difficulty == q.difficulty && e.battles == q.battles && e.wins == q.wins
    ensures Consistent(q) ==> e.winPct * q.battles as real == 100.0 * q.wins as real
  {
    Entry(q.id, q.meal, q.cuisine, q.price, q.difficulty, q.battles, q.wins, q.winRatio * 100.0)
  }

  /** The entry a stored row yields on the leaderboard. */
  function EntryFor(id: int, row: Row): (e: Entry)
    requires row.battles > 0
    ensures e.id == id && e.wins == row.wins && e.battles == row.battles
    ensures e.meal == row.meal && e.cuisine == row.cuisine && e.price == row.price && e.difficulty == row.difficulty
    ensures e.winPct * row.battles as real == 100.0 * row.wins as real
  {
    EntryOf(QueryRowOf(id, row))
  }

  /** The loop over the fetched rows that appends one entry per row, in the
      order the rows were fetched. */
  method BuildEntries(fetched: seq<QueryRow>) returns (board: seq<Entry>)
    ensures |board| == |fetched|
    ensures forall k :: 0 <= k < |fetched| ==> board[k] == EntryOf(fetched[k])
  {
    board := [];
    for i := 0 to |fetched|
      invariant |board| == i
      invariant forall k :: 0 <= k < i ==> board[k] == EntryOf(fetched[k])
    {
      board := board + [EntryOf(fetched[i])];
    }
  }

  /** Comparing win ratios is comparing by cross-multiplication. */
  lemma RatioOrder(w1: int, b1: int, w2: int, b2: int)
    requires b1 > 0 && b2 > 0
    ensures (w1 as real / b1 as real >= w2 as real / b2 as real) <==> w1 * b2 >= w2 * b1
  {
    var x := w1 as real / b1 as real;
    var y := w2 as real / b2 as real;
    var c := b1 as real * b2 as real;
    assert c > 0.0;
    assert x * c == w1 as real * b2 as real;
    assert y * c == w2 as real * b1 as real;
    assert x >= y <==> x * c >= y * c;
  }

  /** A fetched row whose ratio is the one the query computes from its counters. */
  predicate Consistent(q: QueryRow)
  {
    q.battles > 0 && q.winRatio == q.wins as real / q.battles as real
  }

  /** The entries list exactly the table's rows that are on the leaderboard,
      each once: every entry is the entry of such a row, every such row has
      its entry in the list, and no id occurs twice. */
  ghost predicate ListsLeaderboardRows(rows: map<int, Row>, board: seq<Entry>)
  {
    && (forall i :: 0 <= i < |board| ==>
          board[i].id in rows && OnLeaderboard(rows[board[i].id]) && board[i] == EntryFor(board[i].id, rows[board[i].id]))
    && (forall id :: id in rows && OnLeaderboard(rows[id]) ==> EntryFor(id, rows[id]) in board)
    && (forall i, j :: 0 <= i < j < |board| ==> board[i].id != board[j].id)
  }

  ghost predicate DescendingByWins(board: seq<Entry>)
  {
    forall i, j :: 0 <= i < j < |board| ==> board[i].wins >= board[j].wins
  }

  /** Descending by percentage, equivalently by cross-multiplied wins and battles. */
  ghost predicate DescendingByWinPct(board: seq<Entry>)
  {
    forall i, j :: 0 <= i < j < |board| ==>
      && board[i].winPct >= board[j].winPct
      && board[i].wins * board[j].battles >= board[j].wins * board[i].battles
  }

  /** What the database may return for the query: the rows of the table walk,
      each exactly once, in an order that is descending by the key. Rows
      with equal keys may come in any order. */
  ghost predicate IsFetchResult(rows: map<int, Row>, nextId: int, key: SortKey, fetched: seq<QueryRow>)
  {
    && SortedBy(key, fetched)
    && multiset(fetched) == multiset(Scan(rows, 1, nextId))
    && DistinctIds(fetched)
  }

  /** Whatever order the database picks among ties, the rows it returns, and
      the entries built from them one by one, form the leaderboard of the
      table in the requested order. */
  lemma LeaderboardOfTable(rows: map<int, Row>, nextId: int, key: SortKey,
                           fetched: seq<QueryRow>, board: seq<Entry>)
    requires TableInvariant(rows, nextId)
    requires IsFetchResult(rows, nextId, key, fetched)
    requires |board| == |fetched|
    requires forall k :: 0 <= k < |fetched| ==> board[k] == EntryOf(fetched[k])
    ensures ListsLeaderboardRows(rows, board)
    ensures key == ByWins ==> DescendingByWins(board)
    ensures key == ByWinPct ==> DescendingByWinPct(board)
  {
    EntriesMatchTable(rows, nextId, fetched, board);
    EntriesCoverTable(rows, nextId, fetched, board);
    FetchedConsistent(rows, nextId, fetched);
    EntriesOrdered(key, fetched, board);
  }

  /** Every entry is the entry of a leaderboard row of the table, and no id
      occurs twice. */
  lemma EntriesMatchTable(rows: map<int, Row>, nextId: int, fetched: seq<QueryRow>, board: seq<Entry>)
    requires multiset(fetched) == multiset(Scan(rows, 1, nextId))
    requires DistinctIds(fetched)
    requires |board| == |fetched|
    requires forall k :: 0 <= k < |fetched| ==> board[k] == EntryOf(fetched[k])
    ensures forall i :: 0 <= i < |board| ==>
              board[i].id in rows && OnLeaderboard(rows[board[i].id]) && board[i] == EntryFor(board[i].id, rows[board[i].id])
    ensures forall i, j :: 0 <= i < j < |board| ==> board[i].id != board[j].id
  {
    forall i | 0 <= i < |board|
      ensures board[i].id in rows && OnLeaderboard(rows[board[i].id]) && board[i] == EntryFor(board[i].id, rows[board[i].id])
    {
      assert fetched[i] in multiset(Scan(rows, 1, nextId));
    }
    forall i, j | 0 <= i < j < |board| ensures board[i].id != board[j].id {
      assert fetched[i].id != fetched[j].id;
    }
  }

  /** Every leaderboard row of the table (the table invariant puts every id
      below nextId) has its entry in the result. */
  lemma EntriesCoverTable(rows: map<int, Row>, nextId: int, fetched: seq<QueryRow>, board: seq<Entry>)
    requires TableInvariant(rows, nextId)
    requires multiset(fetched) == multiset(Scan(rows, 1, nextId))
    requires |board| == |fetched|
    requires forall k :: 0 <= k < |fetched| ==> board[k] == EntryOf(fetched[k])
    ensures forall id :: id in rows && OnLeaderboard(rows[id]) ==> EntryFor(id, rows[id]) in board
  {
    forall id | id in rows && OnLeaderboard(rows[id]) ensures EntryFor(id, rows[id]) in board {
      ScanComplete(rows, 1, nextId, id);
      assert QueryRowOf(id, rows[id]) in multiset(fetched);
      var k :| 0 <= k < |fetched| && fetched[k] == QueryRowOf(id, rows[id]);
      assert board[k] == EntryFor(id, rows[id]);
    }
  }

  /** Two scanned rows in descending order of the key: their entries are in
      descending order of wins, or of percentage and of cross-multiplied
      wins and battles. */
  lemma PairOrdered(key: SortKey, a: QueryRow, b: QueryRow)
    requires Consistent(a) && Consistent(b)
    requires Rank(key, a) >= Rank(key, b)
    ensures key == ByWins ==> EntryOf(a).wins >= EntryOf(b).wins
    ensures key == ByWinPct ==> EntryOf(a).winPct >= EntryOf(b).winPct
    ensures key == ByWinPct ==> a.wins * b.battles >= b.wins * a.battles
  {
    if key == ByWinPct {
      RatioOrder(a.wins, a.battles, b.wins, b.battles);
    }
  }

  /** Each fetched row carries its own win ratio. */
  lemma FetchedConsistent(rows: map<int, Row>, nextId: int, fetched: seq<QueryRow>)
    requires multiset(fetched) == multiset(Scan(rows, 1, nextId))
    ensures forall k :: 0 <= k < |fetched| ==> Consistent(fetched[k])
  {
    forall k | 0 <= k < |fetched| ensures Consistent(fetched[k]) {
      assert fetched[k] in multiset(Scan(rows, 1, nextId));
    }
  }

  /** The entries are in descending order of the chosen key; for the win
      ratio this is also the order by cross-multiplication. */
  lemma EntriesOrdered(key: SortKey, fetched: seq<QueryRow>, board: seq<Entry>)
    requires SortedBy(key, fetched)
    requires forall k :: 0 <= k < |fetched| ==> Consistent(fetched[k])
    requires |board| == |fetched|
    requires forall k :: 0 <= k < |fetched| ==> board[k] == EntryOf(fetched[k])
    ensures key == ByWins ==> DescendingByWins(board)
    ensures key == ByWinPct ==> DescendingByWinPct(board)
  {
    forall i, j | 0 <= i < j < |board|
      ensures key == ByWins ==> board[i].wins >= board[j].wins
      ensures key == ByWinPct ==> board[i].winPct >= board[j].winPct
      ensures key == ByWinPct ==> board[i].wins * board[j].battles >= board[j].wins * board[i].battles
    {
      PairOrdered(key, fetched[i], fetched[j]);
    }
  }

}
