/**
 * A remote table as the admin pages see it: a sequence of rows, each with a
 * string primary key. `.update(...).eq('id', id)` and `.delete().eq('id', id)`
 * are `Update` and `Remove` below.
 */
module Rows {

  /** The primary key is unique. */
  predicate UniqueKeys<T>(rows: seq<T>, key: T -> string)
  {
    forall i, j :: 0 <= i < j < |rows| ==> key(rows[i]) != key(rows[j])
  }

  lemma TailUnique<T>(rows: seq<T>, key: T -> string)
    requires UniqueKeys(rows, key) && rows != []
    ensures UniqueKeys(rows[1..], key)
    ensures forall x :: x in rows[1..] ==> key(x) != key(rows[0])
  {
    forall i, j | 0 <= i < j < |rows[1..]| ensures key(rows[1..][i]) != key(rows[1..][j]) {
      assert rows[1..][i] == rows[i + 1] && rows[1..][j] == rows[j + 1];
    }
    forall x | x in rows[1..] ensures key(x) != key(rows[0]) {
      var m :| 0 <= m < |rows[1..]| && rows[1..][m] == x;
      assert rows[m + 1] == x;
    }
  }

  /** `.update(changes).eq('id', id)`: the rows with key `id` become `u` of themselves. */
  function Update<T>(rows: seq<T>, key: T -> string, id: string, u: T -> T): (r: seq<T>)
    ensures |r| == |rows|
    ensures forall k :: 0 <= k < |r| ==> r[k] == if key(rows[k]) == id then u(rows[k]) else rows[k]
  {
    if rows == [] then []
    else [if key(rows[0]) == id then u(rows[0]) else rows[0]] + Update(rows[1..], key, id, u)
  }

  /** An update that leaves keys alone keeps them unique. */
  lemma UpdateKeepsUnique<T>(rows: seq<T>, key: T -> string, id: string, u: T -> T)
    requires UniqueKeys(rows, key)
    requires forall x :: key(u(x)) == key(x)
    ensures UniqueKeys(Update(rows, key, id, u), key)
  {
    var r := Update(rows, key, id, u);
    forall i, j | 0 <= i < j < |r| ensures key(r[i]) != key(r[j]) {
      assert key(r[i]) == key(rows[i]) && key(r[j]) == key(rows[j]);
    }
  }

  /**
   * Updating by the key of a row `x` of a table with unique keys changes that
   * row, at its position, and no other row.
   */
  lemma UpdateOnlyRow<T>(rows: seq<T>, key: T -> string, x: T, u: T -> T)
    requires UniqueKeys(rows, key) && x in rows
    ensures forall j :: 0 <= j < |rows| ==>
              Update(rows, key, key(x), u)[j] == if rows[j] == x then u(x) else rows[j]
  {
    var m :| 0 <= m < |rows| && rows[m] == x;
    forall j | 0 <= j < |rows|
      ensures Update(rows, key, key(x), u)[j] == if rows[j] == x then u(x) else rows[j]
    {
      if rows[j] != x && key(rows[j]) == key(x) {
        assert false;
      }
    }
  }

  /** `.delete().eq('id', id)`: the rows with key `id` are gone, the others keep their order (`RemoveAppend`). */
  function Remove<T(==,!new)>(rows: seq<T>, key: T -> string, id: string): (r: seq<T>)
    ensures forall x :: x in r <==> x in rows && key(x) != id
    ensures |r| <= |rows|
  {
    if rows == [] then []
    else (if key(rows[0]) == id then [] else [rows[0]]) + Remove(rows[1..], key, id)
  }

  /**
   * Deleting distributes over concatenation, so the rows that stay keep their
   * relative order: deleting from `a + b` deletes from `a`, then from `b`.
   */
  lemma {:induction false} RemoveAppend<T(!new)>(a: seq<T>, b: seq<T>, key: T -> string, id: string)
    ensures Remove(a + b, key, id) == Remove(a, key, id) + Remove(b, key, id)
  {
    if a != [] {
      assert (a + b)[0] == a[0];
      assert (a + b)[1..] == a[1..] + b;
      RemoveAppend(a[1..], b, key, id);
    } else {
      assert a + b == b;
    }
  }

  /** A single row stays exactly when its key is not the one deleted. */
  lemma RemoveOne<T(!new)>(x: T, key: T -> string, id: string)
    ensures Remove([x], key, id) == if key(x) == id then [] else [x]
  {
    assert [x][1..] == [];
  }

  lemma {:induction false} RemoveAbsent<T(!new)>(rows: seq<T>, key: T -> string, id: string)
    requires forall x :: x in rows ==> key(x) != id
    ensures Remove(rows, key, id) == rows
  {
    if rows != [] {
      assert rows[0] in rows;
      assert forall x :: x in rows[1..] ==> x in rows;
      RemoveAbsent(rows[1..], key, id);
      assert rows == [rows[0]] + rows[1..];
    }
  }

  /** Deleting by key keeps the keys unique. */
  lemma {:induction false} RemoveKeepsUnique<T(!new)>(rows: seq<T>, key: T -> string, id: string)
    requires UniqueKeys(rows, key)
    ensures UniqueKeys(Remove(rows, key, id), key)
  {
    if rows != [] {
      TailUnique(rows, key);
      RemoveKeepsUnique(rows[1..], key, id);
      var rest := Remove(rows[1..], key, id);
      if key(rows[0]) != id {
        var r := [rows[0]] + rest;
        forall i, j | 0 <= i < j < |r| ensures key(r[i]) != key(r[j]) {
          if i == 0 {
            assert r[j] == rest[j - 1];
            assert r[j] in rows[1..];
          } else {
            assert r[i] == rest[i - 1] && r[j] == rest[j - 1];
          }
        }
      }
    }
  }

  /** Deleting the key of a row of a table with unique keys removes exactly that one row. */
  lemma {:induction false} RemoveRemovesOne<T(!new)>(rows: seq<T>, key: T -> string, k: nat)
    requires UniqueKeys(rows, key) && k < |rows|
    ensures |Remove(rows, key, key(rows[k]))| == |rows| - 1
  {
    TailUnique(rows, key);
    if k == 0 {
      RemoveAbsent(rows[1..], key, key(rows[0]));
    } else {
      assert rows[1..][k - 1] == rows[k];
      RemoveRemovesOne(rows[1..], key, k - 1);
    }
  }
}
