/**
  The default ordering of Rooms and Messages, `['-updated', '-created']`:
  newest update first, ties broken by newest creation. Timestamps are given
  integers; the clock that sets them is not part of this model.
 */
module Ordering {
  import opened Store

  /** The two timestamps the ordering reads. */
  datatype Stamp = Stamp(updated: int, created: int)

  function RoomStamp(row: (RoomId, Room)): Stamp {
    Stamp(row.1.updated, row.1.created)
  }

  function MessageStamp(row: (MessageId, Message)): Stamp {
    Stamp(row.1.updated, row.1.created)
  }

  /** `a` may be listed before `b`: descending on `updated`, then descending on `created`. */
  predicate ListedBefore(a: Stamp, b: Stamp) {
    a.updated > b.updated || (a.updated == b.updated && a.created >= b.created)
  }

  /** The comparator is a total preorder, so a sorted order exists for every input. */
  lemma ListedBeforeIsTotalPreorder(a: Stamp, b: Stamp, c: Stamp)
    ensures ListedBefore(a, a)
    ensures ListedBefore(a, b) || ListedBefore(b, a)
    ensures ListedBefore(a, b) && ListedBefore(b, c) ==> ListedBefore(a, c)
    ensures ListedBefore(a, b) && ListedBefore(b, a) <==> a == b
  {
  }

  ghost predicate Sorted<T>(s: seq<T>, key: T -> Stamp) {
    forall i, j :: 0 <= i < j < |s| ==> ListedBefore(key(s[i]), key(s[j]))
  }

  /** Inserts `x` into a sorted sequence, ahead of every element it may precede. */
  function Insert<T>(x: T, s: seq<T>, key: T -> Stamp): (r: seq<T>)
    requires Sorted(s, key)
    ensures Sorted(r, key)
    ensures multiset(r) == multiset(s) + multiset{x}
  {
    if s == [] then [x]
    else if ListedBefore(key(x), key(s[0])) then
      assert forall j :: 0 <= j < |s| ==> ListedBefore(key(s[0]), key(s[j])) by {
        forall j | 0 < j < |s| ensures ListedBefore(key(s[0]), key(s[j])) { }
      }
      [x] + s
    else
      var rest := Insert(x, s[1..], key);
      assert s == [s[0]] + s[1..];
      assert forall j :: 0 <= j < |rest| ==> ListedBefore(key(s[0]), key(rest[j])) by {
        forall j | 0 <= j < |rest| ensures ListedBefore(key(s[0]), key(rest[j])) {
          assert rest[j] in multiset(rest);
          if rest[j] != x {
            assert rest[j] in multiset(s[1..]);
            var i :| 0 <= i < |s[1..]| && s[1..][i] == rest[j];
            assert s[i + 1] == rest[j];
          }
        }
      }
      [s[0]] + rest
  }

  /** Orders rows by the default ordering (insertion sort). */
  function Sort<T>(s: seq<T>, key: T -> Stamp): (r: seq<T>)
    ensures Sorted(r, key)
    ensures multiset(r) == multiset(s)
    ensures |r| == |s|
  {
    if s == [] then []
    else
      assert s == [s[0]] + s[1..];
      Insert(s[0], Sort(s[1..], key), key)
  }

  /** Rows that are already in the default order come back unchanged. This is a
      property of this insertion sort: the database's `ORDER BY` makes no such
      promise for rows whose two timestamps are equal, and `SortedPermutationsAgree`
      shows those rows are the only ones whose order can differ. */
  lemma {:induction false} SortKeepsSortedInput<T>(s: seq<T>, key: T -> Stamp)
    requires Sorted(s, key)
    ensures Sort(s, key) == s
  {
    if s != [] {
      assert Sorted(s[1..], key);
      SortKeepsSortedInput(s[1..], key);
      assert s == [s[0]] + s[1..];
      if |s| > 1 {
        assert ListedBefore(key(s[0]), key(s[1]));
      }
    }
  }

  /** The timestamps of a sequence of rows, in order. */
  function Stamps<T>(s: seq<T>, key: T -> Stamp): (r: seq<Stamp>)
    ensures |r| == |s|
    ensures forall i :: 0 <= i < |s| ==> r[i] == key(s[i])
  {
    seq(|s|, i requires 0 <= i < |s| => key(s[i]))
  }

  /** Removing one element keeps a sequence sorted. */
  lemma SortedWithout<T>(s: seq<T>, j: nat, key: T -> Stamp)
    requires Sorted(s, key) && j < |s|
    ensures Sorted(s[..j] + s[j + 1..], key)
  {
  }

  /** In a sorted sequence, rows between two rows with equal timestamps share them. */
  lemma SortedBlock<T>(b: seq<T>, j: nat, key: T -> Stamp)
    requires Sorted(b, key) && j < |b| && key(b[j]) == key(b[0])
    ensures forall x :: 0 <= x <= j ==> key(b[x]) == key(b[0])
  {
  }

  /** The first rows of two sorted arrangements of the same rows carry the same timestamps. */
  lemma SortedHeadsAgree<T>(a: seq<T>, b: seq<T>, key: T -> Stamp) returns (j: nat)
    requires Sorted(a, key) && Sorted(b, key)
    requires multiset(a) == multiset(b) && a != []
    ensures j < |b| && b[j] == a[0] && b != []
    ensures key(a[0]) == key(b[0])
  {
    assert a[0] in multiset(b);
    j :| 0 <= j < |b| && b[j] == a[0];
    assert b[0] in multiset(a);
    var i :| 0 <= i < |a| && a[i] == b[0];
    assert ListedBefore(key(a[0]), key(a[i]));
    assert ListedBefore(key(b[0]), key(b[j]));
    ListedBeforeIsTotalPreorder(key(a[0]), key(b[0]), key(b[0]));
  }

  /** Removing the row at `j` from `b` removes one occurrence of it. */
  lemma MultisetWithout<T>(b: seq<T>, j: nat)
    requires j < |b|
    ensures multiset(b[..j] + b[j + 1..]) == multiset(b) - multiset{b[j]}
  {
    assert b == b[..j] + [b[j]] + b[j + 1..];
  }

  /** Reassembles the timestamps of `b` from its head and the rest without `b[j]`,
      when `b[0..j]` all carry the head's timestamps. */
  lemma StampsFromHead<T>(a: seq<T>, b: seq<T>, j: nat, key: T -> Stamp)
    requires |a| == |b| && 0 < |a| && j < |b|
    requires key(a[0]) == key(b[0])
    requires forall x :: 0 <= x <= j ==> key(b[x]) == key(b[0])
    requires Stamps(a[1..], key) == Stamps(b[..j] + b[j + 1..], key)
    ensures Stamps(a, key) == Stamps(b, key)
  {
  }

  /** Two sorted arrangements of the same rows list the same timestamps in the
      same order: the default ordering fixes the result up to rows whose two
      timestamps are equal. */
  lemma {:induction false} SortedPermutationsAgree<T>(a: seq<T>, b: seq<T>, key: T -> Stamp)
    requires Sorted(a, key) && Sorted(b, key)
    requires multiset(a) == multiset(b)
    ensures Stamps(a, key) == Stamps(b, key)
    decreases |a|
  {
    assert |a| == |b| by {
      assert |a| == |multiset(a)| == |multiset(b)| == |b|;
    }
    if a != [] {
      var j := SortedHeadsAgree(a, b, key);
      var b' := b[..j] + b[j + 1..];
      assert a[..0] + a[1..] == a[1..];
      assert multiset(a[1..]) == multiset(b') by {
        MultisetWithout(b, j);
        MultisetWithout(a, 0);
      }
      assert Sorted(b', key) by {
        SortedWithout(b, j, key);
      }
      assert Sorted(a[1..], key) by {
        SortedWithout(a, 0, key);
      }
      assert forall x :: 0 <= x <= j ==> key(b[x]) == key(b[0]) by {
        SortedBlock(b, j, key);
      }
      SortedPermutationsAgree(a[1..], b', key);
      StampsFromHead(a, b, j, key);
    }
  }

  /** The rows of a table in an unspecified order, each key once. */
  method Rows<V>(m: map<nat, V>) returns (rows: seq<(nat, V)>)
    ensures |rows| == |m|
    ensures forall i :: 0 <= i < |rows| ==> rows[i].0 in m && rows[i].1 == m[rows[i].0]
    ensures forall k :: k in m ==> exists i :: 0 <= i < |rows| && rows[i].0 == k
    ensures forall i, j :: 0 <= i < j < |rows| ==> rows[i].0 != rows[j].0
  {
    var left := m.Keys;
    rows := [];
    while left != {}
      invariant left <= m.Keys
      invariant |rows| + |left| == |m|
      invariant forall i :: 0 <= i < |rows| ==> rows[i].0 in m && rows[i].0 !in left && rows[i].1 == m[rows[i].0]
      invariant forall k :: k in m && k !in left ==> exists i :: 0 <= i < |rows| && rows[i].0 == k
      invariant forall i, j :: 0 <= i < j < |rows| ==> rows[i].0 != rows[j].0
      decreases left
    {
      var k :| k in left;
      var before := rows;
      rows := rows + [(k, m[k])];
      left := left - {k};
      forall j | j in m && j !in left ensures exists i :: 0 <= i < |rows| && rows[i].0 == j {
        if j == k {
          assert rows[|before|].0 == j;
        } else {
          var i :| 0 <= i < |before| && before[i].0 == j;
          assert rows[i].0 == j;
        }
      }
    }
  }

  /** `Room.objects.all()`: every room once, in the default order. */
  method ListRooms(db: Db) returns (r: seq<(RoomId, Room)>)
    ensures Sorted(r, RoomStamp)
    ensures |r| == |db.rooms|
    ensures forall row :: row in r <==> row.0 in db.rooms && row.1 == db.rooms[row.0]
  {
    var rows := Rows(db.rooms);
    r := Sort(rows, RoomStamp);
    forall row | row in r || row in rows ensures row in r <==> row in rows {
      assert row in r <==> row in multiset(r);
      assert row in rows <==> row in multiset(rows);
    }
    forall row: (RoomId, Room) | row.0 in db.rooms && row.1 == db.rooms[row.0] ensures row in rows {
      var i :| 0 <= i < |rows| && rows[i].0 == row.0;
      assert rows[i] == row;
    }
  }

  /** `Message.objects.all()`: every message once, in the default order. */
  method ListMessages(db: Db) returns (r: seq<(MessageId, Message)>)
    ensures Sorted(r, MessageStamp)
    ensures |r| == |db.messages|
    ensures forall row :: row in r <==> row.0 in db.messages && row.1 == db.messages[row.0]
  {
    var rows := Rows(db.messages);
    r := Sort(rows, MessageStamp);
    forall row | row in r || row in rows ensures row in r <==> row in rows {
      assert row in r <==> row in multiset(r);
      assert row in rows <==> row in multiset(rows);
    }
    forall row: (MessageId, Message) | row.0 in db.messages && row.1 == db.messages[row.0] ensures row in rows {
      var i :| 0 <= i < |rows| && rows[i].0 == row.0;
      assert rows[i] == row;
    }
  }
}
