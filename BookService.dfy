/** The book repository: the Books table of the database context, held as
    its rows in key order with the key the store will generate next. */
module BookService {
  import opened Wrappers
  import opened Text
  import opened Records
  import opened Subsequences

  /** The search test: the lower-cased query occurs in the lower-cased
      title, or in the lower-cased author or description when they are set. */
  predicate MatchesQuery(b: Book, lowerQuery: string) {
    || Contains(Lower(b.title), lowerQuery)
    || (b.author.Some? && Contains(Lower(b.author.value), lowerQuery))
    || (b.description.Some? && Contains(Lower(b.description.value), lowerQuery))
  }

  /** The rows that pass the search test, in table order. */
  function Matching(rows: seq<Book>, lowerQuery: string): (r: seq<Book>)
    ensures forall b :: b in r <==> b in rows && MatchesQuery(b, lowerQuery)
    ensures IsSubsequence(r, rows)
    ensures |r| <= |rows|
  {
    if rows == [] then []
    else
      var init := rows[..|rows| - 1];
      var last := rows[|rows| - 1];
      var rest := Matching(init, lowerQuery);
      assert init + [last] == rows;
      Extend(rest, init, last);
      if MatchesQuery(last, lowerQuery) then rest + [last] else rest
  }

  /** `SetValues`: the stored record takes every property value of the
      incoming one; the tag navigation is not a property value and stays. */
  function WithValuesOf(stored: Book, incoming: Book): Book {
    incoming.(tags := stored.tags)
  }

  /** Ids strictly ascend along the table. */
  ghost predicate IdsIncreasing(rows: seq<Book>) {
    forall i, j :: 0 <= i < j < |rows| ==> rows[i].id < rows[j].id
  }

  /** Position of the first row with that Id. */
  function IndexOfId(rows: seq<Book>, id: int): (r: Option<nat>)
    ensures r.Some? ==> r.value < |rows| && rows[r.value].id == id
    ensures r.Some? ==> forall k :: 0 <= k < r.value ==> rows[k].id != id
    ensures r.None? ==> forall k :: 0 <= k < |rows| ==> rows[k].id != id
  {
    if rows == [] then None
    else if rows[0].id == id then Some(0)
    else match IndexOfId(rows[1..], id)
      case None => None
      case Some(k) => Some(k + 1)
  }

  /** The rows a list of Ids names, in the order of the Ids: the records a
      many-to-many navigation loads. An Id that no row holds names
      nothing, as the join row is deleted with its book. */
  function RowsOf(ids: seq<int>, rows: seq<Book>): (r: seq<Book>)
    ensures forall b :: b in r ==> b in rows && b.id in ids
    ensures forall id :: id in ids && IndexOfId(rows, id).Some? ==> rows[IndexOfId(rows, id).value] in r
    ensures |r| <= |ids|
  {
    if ids == [] then []
    else
      (match IndexOfId(rows, ids[0]) case Some(i) => [rows[i]] case None => [])
      + RowsOf(ids[1..], rows)
  }

  /** When every Id names a row, the loaded records are those rows, one
      per Id, in the order of the Ids. */
  lemma {:induction false} RowsOfAllFound(ids: seq<int>, rows: seq<Book>)
    requires forall id :: id in ids ==> IndexOfId(rows, id).Some?
    ensures |RowsOf(ids, rows)| == |ids|
    ensures forall k :: 0 <= k < |ids| ==> RowsOf(ids, rows)[k] == rows[IndexOfId(rows, ids[k]).value]
  {
    if ids != [] {
      RowsOfAllFound(ids[1..], rows);
      var head := rows[IndexOfId(rows, ids[0]).value];
      assert RowsOf(ids, rows) == [head] + RowsOf(ids[1..], rows);
      forall k | 0 < k < |ids|
        ensures RowsOf(ids, rows)[k] == rows[IndexOfId(rows, ids[k]).value]
      {
        assert ids[k] == ids[1..][k - 1];
      }
    }
  }

  /** The records of a list of Ids are the current rows: once a row is
      replaced by one with the same Id, the new record is loaded and the
      old one is not. */
  lemma RowsOfCurrent(ids: seq<int>, rows: seq<Book>, i: nat, b: Book)
    requires IdsIncreasing(rows) && i < |rows| && b.id == rows[i].id && b.id in ids
    ensures b in RowsOf(ids, rows[i := b])
    ensures rows[i] != b ==> rows[i] !in RowsOf(ids, rows[i := b])
  {
    var updated := rows[i := b];
    forall k | 0 <= k < |updated| && k != i
      ensures updated[k] == rows[k] && updated[k].id != b.id
    {
    }
    assert updated[i].id == b.id;
    assert updated[IndexOfId(updated, b.id).value] == b;
  }

  /** Puts a row with a new Id at its place in the key order. */
  function InsertById(rows: seq<Book>, b: Book): (r: seq<Book>)
    requires IdsIncreasing(rows) && forall k :: 0 <= k < |rows| ==> rows[k].id != b.id
    ensures IdsIncreasing(r)
    ensures |r| == |rows| + 1
    ensures forall x :: x in r <==> x in rows || x == b
  {
    if rows == [] || b.id < rows[0].id then
      assert forall k :: 0 <= k < |rows| ==> b.id < rows[k].id;
      [b] + rows
    else
      var rest := InsertById(rows[1..], b);
      assert rows == [rows[0]] + rows[1..];
      assert forall x :: x in rest ==> rows[0].id < x.id by {
        forall x | x in rest ensures rows[0].id < x.id {
          if x != b {
            var k :| 0 <= k < |rows[1..]| && rows[1..][k] == x;
            assert rows[k + 1] == x;
          }
        }
      }
      ConsIdsIncreasing(rows[0], rest);
      [rows[0]] + rest
  }

  /** The table without the row that has that Id. */
  function WithoutId(rows: seq<Book>, id: int): (r: seq<Book>)
    requires IdsIncreasing(rows)
    ensures IdsIncreasing(r)
    ensures forall x :: x in r <==> x in rows && x.id != id
    ensures |r| == if IndexOfId(rows, id).Some? then |rows| - 1 else |rows|
  {
    if rows == [] then []
    else
      assert rows == [rows[0]] + rows[1..];
      if rows[0].id == id then
        assert forall k :: 0 <= k < |rows[1..]| ==> rows[1..][k].id > id;
        rows[1..]
      else
        var rest := WithoutId(rows[1..], id);
        assert forall x :: x in rest ==> rows[0].id < x.id by {
          forall x | x in rest ensures rows[0].id < x.id {
            var k :| 0 <= k < |rows[1..]| && rows[1..][k] == x;
            assert rows[k + 1] == x;
          }
        }
        ConsIdsIncreasing(rows[0], rest);
        [rows[0]] + rest
  }

  /** A row with a smaller Id than every row of an ascending table can go
      in front of it. */
  lemma ConsIdsIncreasing(x: Book, rest: seq<Book>)
    requires IdsIncreasing(rest) && forall y :: y in rest ==> x.id < y.id
    ensures IdsIncreasing([x] + rest)
  {
    var r := [x] + rest;
    forall i, j | 0 <= i < j < |r| ensures r[i].id < r[j].id {
      assert r[j] == rest[j - 1];
      if i > 0 {
        assert r[i] == rest[i - 1];
      }
    }
  }

  /** The Books table: its rows in ascending key order, which is the order
      of the table's B-tree and so the order in which a query without
      ORDER BY returns them, and the key the store will generate next. */
  class BookStore {
    var rows: seq<Book>
    var nextId: int

    /** Keys are positive, below the next generated key, and ascend along
        the table, so each is used once. */
    ghost predicate Valid()
      reads this
    {
      && 1 <= nextId
      && (forall i :: 0 <= i < |rows| ==> 1 <= rows[i].id < nextId)
      && IdsIncreasing(rows)
    }

    constructor ()
      ensures Valid() && rows == [] && nextId == 1
    {
      rows := [];
      nextId := 1;
    }

    /** GetBookByIdAsync: the row with that Id, or None. */
    function BookById(id: int): (r: Option<Book>)
      reads this
      ensures r.Some? ==> r.value in rows && r.value.id == id
      ensures r.None? ==> forall b :: b in rows ==> b.id != id
    {
      match IndexOfId(rows, id)
      case Some(i) => Some(rows[i])
      case None => None
    }

    /** AddBookAsync: a record with Id 0 is stored under a fresh key and
        comes back with that key; a record with a positive Id not yet used
        is stored under it; the same object is returned. */
    method AddBook(book: Option<Book>) returns (r: Result<Book>)
      requires Valid()
      modifies this
      ensures Valid()
      ensures book.None? ==> r == Err(ArgumentNull) && rows == old(rows) && nextId == old(nextId)
      ensures book.Some? && book.value.id == 0 ==>
                && r == Ok(book.value.(id := old(nextId)))
                && rows == old(rows) + [r.value]
                && nextId == old(nextId) + 1
      ensures book.Some? && book.value.id != 0 && (book.value.id < 0 || IndexOfId(old(rows), book.value.id).Some?) ==>
                r == Err(DuplicateKey) && rows == old(rows) && nextId == old(nextId)
      ensures book.Some? && book.value.id > 0 && IndexOfId(old(rows), book.value.id).None? ==>
                && r == Ok(book.value)
                && rows == InsertById(old(rows), book.value)
                && nextId == (if book.value.id < old(nextId) then old(nextId) else book.value.id + 1)
    {
      if book.None? {
        return Err(ArgumentNull);
      }
      var b := book.value;
      if b.id == 0 {
        b := b.(id := nextId);
        rows := rows + [b];
        nextId := nextId + 1;
        r := Ok(b);
      } else if b.id < 0 || IndexOfId(rows, b.id).Some? {
        r := Err(DuplicateKey);
      } else {
        ghost var before := rows;
        assert forall x :: x in before ==> 1 <= x.id < nextId;
        rows := InsertById(rows, b);
        assert forall i :: 0 <= i < |rows| ==> rows[i] in before || rows[i] == b;
        if nextId <= b.id {
          nextId := b.id + 1;
        }
        r := Ok(b);
      }
    }

    /** UpdateBookAsync: refuses null; returns false and changes nothing for
        an unknown Id; otherwise the stored row takes the incoming values
        and no other row changes. */
    method UpdateBook(book: Option<Book>) returns (r: Result<bool>)
      requires Valid()
      modifies this
      ensures Valid() && nextId == old(nextId)
      ensures book.None? ==> r == Err(ArgumentNull) && rows == old(rows)
      ensures book.Some? && IndexOfId(old(rows), book.value.id).None? ==> r == Ok(false) && rows == old(rows)
      ensures book.Some? && IndexOfId(old(rows), book.value.id).Some? ==>
                var i := IndexOfId(old(rows), book.value.id).value;
                && r == Ok(true)
                && rows == old(rows)[i := WithValuesOf(old(rows)[i], book.value)]
    {
      if book.None? {
        return Err(ArgumentNull);
      }
      var b := book.value;
      match IndexOfId(rows, b.id)
      case None =>
        r := Ok(false);
      case Some(i) =>
        rows := rows[i := WithValuesOf(rows[i], b)];
        r := Ok(true);
    }

    /** DeleteBookAsync: removes exactly the row with that Id, if any. */
    method DeleteBook(id: int) returns (r: bool)
      requires Valid()
      modifies this
      ensures Valid() && nextId == old(nextId)
      ensures r == IndexOfId(old(rows), id).Some?
      ensures rows == WithoutId(old(rows), id)
      ensures BookById(id).None?
    {
      r := IndexOfId(rows, id).Some?;
      rows := WithoutId(rows, id);
    }

    /** SearchBooksAsync: all rows for a null or whitespace query; otherwise
        exactly the rows that match the lower-cased query, in table order. */
    function Search(query: Option<string>): (r: seq<Book>)
      reads this
      ensures IsNullOrWhiteSpace(query) ==> r == rows
      ensures !IsNullOrWhiteSpace(query) ==>
                forall b :: b in r <==> b in rows && MatchesQuery(b, Lower(query.value))
    {
      if IsNullOrWhiteSpace(query) then rows else Matching(rows, Lower(query.value))
    }
  }

  /** A record stored with a fresh key can be read back by that key. */
  lemma {:induction false} AppendedFound(rows: seq<Book>, b: Book)
    requires forall k :: 0 <= k < |rows| ==> rows[k].id < b.id
    ensures IndexOfId(rows + [b], b.id) == Some(|rows|)
  {
    if rows != [] {
      assert (rows + [b])[1..] == rows[1..] + [b];
      AppendedFound(rows[1..], b);
    }
  }
}
