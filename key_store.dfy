/**
 * The `keys` table of the SQLite database (main.py:20-26): rows of an
 * integer key id assigned by AUTOINCREMENT, the PEM of an RSA private key
 * and an expiry instant in epoch seconds, together with the two queries
 * the server runs on it.
 *
 * A query without ORDER BY returns rows in an order SQLite does not
 * promise; this model fixes it to table (insertion) order, which for a
 * rowid table scanned in full is ascending `kid`.
 */
module KeyStore {
  import opened Wrappers
  import Base64Url

  /** The PEM bytes of a private key (TraditionalOpenSSL, no encryption); opaque here. */
  datatype Pem = Pem(bytes: seq<Base64Url.Byte>)

  /** One row of `keys(kid, key, exp)`. */
  datatype Row = Row(kid: nat, key: Pem, exp: int)

  /** What `get_private_key` returns when a row matches: its `kid` and its PEM. */
  datatype Selected = Selected(kid: nat, key: Pem)

  predicate KidsAscending(rows: seq<Row>)
  {
    forall i, j :: 0 <= i < j < |rows| ==> rows[i].kid < rows[j].kid
  }

  predicate KidsDistinct(rows: seq<Row>)
  {
    forall i, j :: 0 <= i < |rows| && 0 <= j < |rows| && i != j ==> rows[i].kid != rows[j].kid
  }

  /** A table ascending by `kid`, as `KeyTable.Valid()` keeps it, has no repeated `kid`. */
  lemma AscendingKidsDistinct(rows: seq<Row>)
    requires KidsAscending(rows)
    ensures KidsDistinct(rows)
  {
    forall i, j | 0 <= i < |rows| && 0 <= j < |rows| && i != j ensures rows[i].kid != rows[j].kid {
      if i < j { assert rows[i].kid < rows[j].kid; } else { assert rows[j].kid < rows[i].kid; }
    }
  }

  /** The WHERE clause of main.py:61 (`exp < now`) or main.py:63 and main.py:113 (`exp > now`). */
  predicate Matches(r: Row, expired: bool, now: int)
  {
    if expired then r.exp < now else r.exp > now
  }

  /**
   * `SELECT kid, key FROM keys WHERE ...` followed by `fetchone()`
   * (main.py:60-65): the first matching row in table order, or `None`.
   */
  function SelectOne(rows: seq<Row>, expired: bool, now: int): (r: Option<Row>)
    ensures r.None? <==> forall i :: 0 <= i < |rows| ==> !Matches(rows[i], expired, now)
    ensures r.Some? ==> exists i :: 0 <= i < |rows| && rows[i] == r.value &&
                                    Matches(rows[i], expired, now) &&
                                    forall j :: 0 <= j < i ==> !Matches(rows[j], expired, now)
  {
    if rows == [] then None
    else if Matches(rows[0], expired, now) then Some(rows[0])
    else
      var r := SelectOne(rows[1..], expired, now);
      assert forall j :: 0 < j < |rows| ==> rows[j] == rows[1..][j - 1];
      assert r.Some? ==> exists i :: 0 <= i < |rows| && rows[i] == r.value &&
                                     Matches(rows[i], expired, now) &&
                                     forall j :: 0 <= j < i ==> !Matches(rows[j], expired, now) by {
        if r.Some? {
          var i :| 0 <= i < |rows[1..]| && rows[1..][i] == r.value &&
                   Matches(rows[1..][i], expired, now) &&
                   forall j :: 0 <= j < i ==> !Matches(rows[1..][j], expired, now);
          assert rows[i + 1] == r.value;
        }
      }
      r
  }

  /**
   * `get_private_key(expired)` (main.py:57-73): the `kid` and PEM of the
   * selected row, `None` standing for `(None, None, None)`. Loading the PEM
   * into a key object is left to the cryptography library.
   */
  function GetPrivateKey(rows: seq<Row>, expired: bool, now: int): (r: Option<Selected>)
    ensures r.None? <==> forall i :: 0 <= i < |rows| ==> !Matches(rows[i], expired, now)
    ensures r.Some? ==> exists i :: 0 <= i < |rows| && Matches(rows[i], expired, now) &&
                                    rows[i].kid == r.value.kid && rows[i].key == r.value.key
  {
    match SelectOne(rows, expired, now)
    case Some(row) => Some(Selected(row.kid, row.key))
    case None => None
  }

  /**
   * `SELECT kid, key FROM keys WHERE exp > ?` with `fetchall()`
   * (main.py:113-115): the unexpired rows, in table order.
   */
  function ValidRows(rows: seq<Row>, now: int): (r: seq<Row>)
    ensures |r| <= |rows|
    ensures forall j :: 0 <= j < |r| ==> r[j].exp > now
  {
    if rows == [] then []
    else if rows[0].exp > now then [rows[0]] + ValidRows(rows[1..], now)
    else ValidRows(rows[1..], now)
  }

  /** A row is fetched exactly when it is in the table and has not expired. */
  lemma {:induction false} ValidRowsMembers(rows: seq<Row>, now: int)
    ensures forall x :: x in ValidRows(rows, now) <==> x in rows && x.exp > now
  {
    if rows != [] {
      ValidRowsMembers(rows[1..], now);
      assert rows == [rows[0]] + rows[1..];
    }
  }

  /** main.py:59-63: a row that expires exactly now is selected by neither query. */
  lemma BoundaryRowNeverSelected(rows: seq<Row>, expired: bool, now: int)
    ensures SelectOne(rows, expired, now).Some? ==> SelectOne(rows, expired, now).value.exp != now
    ensures SelectOne(rows, true, now).Some? ==> SelectOne(rows, true, now).value.exp < now
    ensures SelectOne(rows, false, now).Some? ==> SelectOne(rows, false, now).value.exp > now
  {
  }

  /** The unexpired rows keep the table's ascending `kid` order. */
  lemma {:induction false} ValidRowsAscending(rows: seq<Row>, now: int)
    requires KidsAscending(rows)
    ensures KidsAscending(ValidRows(rows, now))
  {
    if rows != [] {
      var tail := rows[1..];
      assert KidsAscending(tail) by {
        forall i, j | 0 <= i < j < |tail| ensures tail[i].kid < tail[j].kid {
          assert tail[i] == rows[i + 1] && tail[j] == rows[j + 1];
        }
      }
      ValidRowsAscending(tail, now);
      if rows[0].exp > now {
        ValidRowsAbove(tail, now, rows[0].kid);
      }
    }
  }

  /** Every fetched row has a `kid` above `k` when every row of the table has. */
  lemma {:induction false} ValidRowsAbove(rows: seq<Row>, now: int, k: nat)
    requires forall i :: 0 <= i < |rows| ==> rows[i].kid > k
    ensures forall i :: 0 <= i < |ValidRows(rows, now)| ==> ValidRows(rows, now)[i].kid > k
  {
    if rows != [] {
      var tail := rows[1..];
      assert forall i :: 0 <= i < |tail| ==> tail[i] == rows[i + 1];
      ValidRowsAbove(tail, now, k);
    }
  }

  /**
   * The `keys` table and its AUTOINCREMENT counter. `nextKid` is one more
   * than the largest `kid` ever handed out (SQLite's `sqlite_sequence`
   * entry for the table), so a new row's `kid` exceeds every earlier one.
   */
  class KeyTable {
    var rows: seq<Row>
    var nextKid: nat

    ghost predicate Valid()
      reads this
    {
      && nextKid >= 1
      && KidsAscending(rows)
      && forall i :: 0 <= i < |rows| ==> 1 <= rows[i].kid < nextKid
    }

    /** `CREATE TABLE IF NOT EXISTS keys(...)` on a new database (main.py:20-27). */
    constructor ()
      ensures Valid()
      ensures rows == [] && nextKid == 1
    {
      rows := [];
      nextKid := 1;
    }

    /**
     * `save_key_to_db` (main.py:39-47): `INSERT INTO keys (key, exp)`, the
     * new row taking the next AUTOINCREMENT `kid`.
     */
    method Insert(key: Pem, exp: int)
      requires Valid()
      modifies this
      ensures Valid()
      ensures rows == old(rows) + [Row(old(nextKid), key, exp)]
      ensures nextKid == old(nextKid) + 1
      ensures forall i :: 0 <= i < |old(rows)| ==> old(rows)[i].kid < rows[|rows| - 1].kid
    {
      rows := rows + [Row(nextKid, key, exp)];
      nextKid := nextKid + 1;
    }

    /**
     * Startup seeding (main.py:50-55): the same key is stored twice, once
     * expiring an hour from now and once having expired an hour ago, after
     * whatever rows the database file already held.
     */
    method Seed(key: Pem, now: int)
      requires Valid()
      modifies this
      ensures Valid()
      ensures rows == old(rows) + [Row(old(nextKid), key, now + 3600),
                                   Row(old(nextKid) + 1, key, now - 3600)]
      ensures nextKid == old(nextKid) + 2
    {
      Insert(key, now + 3600);
      Insert(key, now - 3600);
    }
  }

  /**
   * Right after seeding at `now` both queries of `get_private_key` find a
   * row. A row of the earlier table that already matched is still the one
   * found; on a table that had no matching row before, they find exactly
   * the two seeded ones.
   */
  lemma SeededSelections(before: seq<Row>, key: Pem, next: nat, now: int)
    ensures var rows := before + [Row(next, key, now + 3600), Row(next + 1, key, now - 3600)];
            && SelectOne(rows, false, now).Some?
            && SelectOne(rows, true, now).Some?
            && (SelectOne(before, false, now).Some? ==>
                  SelectOne(rows, false, now) == SelectOne(before, false, now))
            && (SelectOne(before, true, now).Some? ==>
                  SelectOne(rows, true, now) == SelectOne(before, true, now))
            && ((forall i :: 0 <= i < |before| ==> !Matches(before[i], false, now)) ==>
                  SelectOne(rows, false, now) == Some(Row(next, key, now + 3600)))
            && ((forall i :: 0 <= i < |before| ==> !Matches(before[i], true, now)) ==>
                  SelectOne(rows, true, now) == Some(Row(next + 1, key, now - 3600)))
  {
    var rows := before + [Row(next, key, now + 3600), Row(next + 1, key, now - 3600)];
    assert rows[|before|] == Row(next, key, now + 3600);
    assert rows[|before| + 1] == Row(next + 1, key, now - 3600);
    forall expired: bool | forall i :: 0 <= i < |before| ==> !Matches(before[i], expired, now)
      ensures SelectOne(rows, expired, now) == Some(rows[|before| + (if expired then 1 else 0)])
    {
      var r := SelectOne(rows, expired, now).value;
      var i :| 0 <= i < |rows| && rows[i] == r && Matches(rows[i], expired, now) &&
               forall j :: 0 <= j < i ==> !Matches(rows[j], expired, now);
    }
    forall expired: bool | SelectOne(before, expired, now).Some?
      ensures SelectOne(rows, expired, now) == SelectOne(before, expired, now)
    {
      // The first match in `before` is also the first match in `rows`.
      var b := SelectOne(before, expired, now).value;
      var i :| 0 <= i < |before| && before[i] == b && Matches(before[i], expired, now) &&
               forall j :: 0 <= j < i ==> !Matches(before[j], expired, now);
      var r := SelectOne(rows, expired, now).value;
      var k :| 0 <= k < |rows| && rows[k] == r && Matches(rows[k], expired, now) &&
               forall j :: 0 <= j < k ==> !Matches(rows[j], expired, now);
      assert rows[i] == before[i];
    }
  }

  /**
   * Process start on a new database file (main.py:15-27, main.py:50-55):
   * the table is created and seeded with one key, stored once valid and
   * once expired, under ids 1 and 2.
   */
  method StartServer(key: Pem, now: int) returns (table: KeyTable)
    ensures fresh(table) && table.Valid()
    ensures table.rows == [Row(1, key, now + 3600), Row(2, key, now - 3600)]
    ensures table.nextKid == 3
  {
    table := new KeyTable();
    table.Seed(key, now);
  }
}
