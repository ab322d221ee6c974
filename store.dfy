/**
 * The record store: table `pw` as a map from id to row, the `upsert` rule,
 * the `listall` and `query` reads, and `SecretManager` with its session and
 * the `transaction()` write scope.
 */
module Store {
  import opened Wrappers
  import opened Records
  import opened Search

  /**
   * The rows of `pw` by id, and the id the next inserted row receives. No
   * operation deletes rows.
   */
  datatype Table = Table(rows: map<int, Secret>, nextId: int)

  /** The empty table of a fresh database file. */
  const Empty: Table := Table(map[], 1)

  /**
   * Every row is filed under its own id; ids start at 1 and a new row gets
   * one more than the largest id present, which is SQLite's rule for an
   * INTEGER PRIMARY KEY.
   */
  ghost predicate WellFormed(t: Table)
  {
    && t.nextId >= 1
    && (forall k :: k in t.rows ==> 1 <= k < t.nextId && t.rows[k].id == k)
    && (t.nextId > 1 ==> t.nextId - 1 in t.rows)
  }

  /** Why an upsert raised. */
  datatype UpsertError =
    /** `get(id)` found no row, so the `setattr` or `merge` on `None` raised. */
    NotFound(key: string)

  /** Python's truthiness of a text value. */
  predicate Truthy(text: string)
  {
    text != ""
  }

  predicate AllDigits(text: string)
  {
    forall i :: 0 <= i < |text| ==> '0' <= text[i] <= '9'
  }

  function Pow10(n: nat): nat
  {
    if n == 0 then 1 else 10 * Pow10(n - 1)
  }

  /** The value of a string of decimal digits, below 10 to the power of its length. */
  function DecimalValue(text: string): (n: nat)
    requires AllDigits(text)
    ensures n < Pow10(|text|)
  {
    if text == [] then 0 else DecimalValue(text[..|text| - 1]) * 10 + (text[|text| - 1] as int - '0' as int)
  }

  /**
   * The integer row id that the text given to `get` selects: SQLite reads a
   * string of decimal digits as that integer against the integer key.
   */
  function RowKey(text: string): (r: Option<int>)
    ensures r.Some? <==> text != [] && AllDigits(text)
    ensures r.Some? ==> 0 <= r.value < Pow10(|text|)
  {
    if text != [] && AllDigits(text) then Some(DecimalValue(text)) else None
  }

  /** `str(n)`: how an id is printed. */
  function Decimal(n: nat): (text: string)
    ensures text != [] && AllDigits(text)
  {
    (if n < 10 then [] else Decimal(n / 10)) + [('0' as int + n % 10) as char]
  }

  /** An id as printed, given back as `--id`, selects that row. */
  lemma {:induction false} PrintedIdSelectsRow(n: nat)
    ensures RowKey(Decimal(n)) == Some(n)
  {
    var text := Decimal(n);
    var prefix := if n < 10 then [] else Decimal(n / 10);
    assert text == prefix + [('0' as int + n % 10) as char];
    assert text[..|text| - 1] == prefix;
    assert text[|text| - 1] as int - '0' as int == n % 10;
    if n >= 10 {
      PrintedIdSelectsRow(n / 10);
    }
    assert DecimalValue(text) == DecimalValue(prefix) * 10 + n % 10;
  }

  /** The key text of an upsert, when it is truthy: `secret_id = kwargs.pop('id', None)`. */
  predicate HasKey(kwargs: map<Column, string>)
  {
    Id in kwargs && Truthy(kwargs[Id])
  }

  /**
   * `SecretManager.upsert(**kwargs)` against the session's table. With a
   * truthy id the row it selects gets the supplied columns; a missing row
   * raises. Otherwise a new row of the supplied columns is added under the
   * next id.
   */
  function Upserted(t: Table, kwargs: map<Column, string>): (r: Result<Table, UpsertError>)
    ensures r.Ok? <==> !HasKey(kwargs) || (RowKey(kwargs[Id]).Some? && RowKey(kwargs[Id]).value in t.rows)
    ensures r.Err? ==> Id in kwargs && r.error == NotFound(kwargs[Id])
    ensures r.Ok? ==> t.rows.Keys <= r.value.rows.Keys
  {
    var fields := kwargs - {Id};
    if HasKey(kwargs) then
      var key := RowKey(kwargs[Id]);
      if key.Some? && key.value in t.rows then
        Ok(Table(t.rows[key.value := Assign(t.rows[key.value], fields)], t.nextId))
      else
        Err(NotFound(kwargs[Id]))
    else
      Ok(Table(t.rows[t.nextId := NewSecret(t.nextId, fields)], t.nextId + 1))
  }

  /**
   * Without a truthy id, upsert adds exactly one row: under an id no row had,
   * with the supplied columns and NULL elsewhere, every old row untouched.
   */
  lemma InsertAddsOneFreshRow(t: Table, kwargs: map<Column, string>)
    requires WellFormed(t) && !HasKey(kwargs)
    ensures Upserted(t, kwargs).Ok?
    ensures var t' := Upserted(t, kwargs).value;
      && t.nextId !in t.rows
      && t'.rows.Keys == t.rows.Keys + {t.nextId}
      && |t'.rows| == |t.rows| + 1
      && t'.rows[t.nextId].id == t.nextId
      && (forall f :: Get(t'.rows[t.nextId], f) == Pick(kwargs, f, None))
      && (forall k :: k in t.rows ==> t'.rows[k] == t.rows[k])
  {
  }

  /**
   * With the id of an existing row, upsert sets exactly the supplied columns
   * of that row; its id, its other columns and every other row stay.
   */
  lemma UpdateSetsSuppliedColumns(t: Table, kwargs: map<Column, string>, k: int)
    requires WellFormed(t) && HasKey(kwargs) && RowKey(kwargs[Id]) == Some(k) && k in t.rows
    ensures Upserted(t, kwargs).Ok?
    ensures var t' := Upserted(t, kwargs).value;
      && t'.rows.Keys == t.rows.Keys
      && t'.nextId == t.nextId
      && t'.rows[k].id == k
      && (forall f :: Col(f) in kwargs ==> Get(t'.rows[k], f) == Some(kwargs[Col(f)]))
      && (forall f :: Col(f) !in kwargs ==> Get(t'.rows[k], f) == Get(t.rows[k], f))
      && (forall j :: j in t.rows && j != k ==> t'.rows[j] == t.rows[j])
  {
  }

  /** Upsert with a truthy id that selects no row raises, whatever the table. */
  lemma UpdateOfMissingRowFails(t: Table, kwargs: map<Column, string>)
    requires HasKey(kwargs)
    requires RowKey(kwargs[Id]).None? || RowKey(kwargs[Id]).value !in t.rows
    ensures Upserted(t, kwargs) == Err(NotFound(kwargs[Id]))
  {
  }

  /** `--id 0` is truthy text, so it asks for an update, and no row has id 0. */
  lemma ZeroIdFails(t: Table, kwargs: map<Column, string>)
    requires WellFormed(t) && Id in kwargs && kwargs[Id] == "0"
    ensures Upserted(t, kwargs).Err?
  {
    assert DecimalValue("0") == 0 by {
      assert "0"[..0] == [];
    }
  }

  /** Upsert keeps the table well formed, keeps every row, and never changes an id. */
  lemma UpsertKeepsRowsAndIds(t: Table, kwargs: map<Column, string>)
    requires WellFormed(t) && Upserted(t, kwargs).Ok?
    ensures var t' := Upserted(t, kwargs).value;
      && WellFormed(t')
      && t.rows.Keys <= t'.rows.Keys
      && (forall k :: k in t.rows ==> t'.rows[k].id == t.rows[k].id)
  {
  }

  /** Repeating an update changes nothing more. */
  lemma UpdateIdempotent(t: Table, kwargs: map<Column, string>)
    requires WellFormed(t) && HasKey(kwargs) && Upserted(t, kwargs).Ok?
    ensures Upserted(Upserted(t, kwargs).value, kwargs) == Upserted(t, kwargs)
  {
    var k := RowKey(kwargs[Id]).value;
    var once := Assign(t.rows[k], kwargs - {Id});
    AssignIdempotent(t.rows[k], kwargs - {Id});
    var t' := Upserted(t, kwargs).value;
    assert t'.rows[k] == once;
    assert t'.rows[k := Assign(once, kwargs - {Id})] == t'.rows;
  }

  /** The rows with ids in `lo..hi`, in increasing id order: a scan of the rowid B-tree. */
  function OrderedRows(rows: map<int, Secret>, lo: int, hi: int): (r: seq<Secret>)
    requires forall k :: k in rows ==> rows[k].id == k
    ensures InIdOrder(r)
    ensures forall x :: x in r <==> x in rows.Values && lo <= x.id < hi
    decreases hi - lo
  {
    if lo >= hi then []
    else if lo in rows then [rows[lo]] + OrderedRows(rows, lo + 1, hi)
    else OrderedRows(rows, lo + 1, hi)
  }

  /** The rows of `rows` that `query(q)` selects, in their order. */
  function Select(rows: seq<Secret>, q: string): (r: seq<Secret>)
    ensures forall x :: x in r <==> x in rows && Matches(x, q)
    ensures InIdOrder(rows) ==> InIdOrder(r)
  {
    if rows == [] then []
    else if Matches(rows[0], q) then
      var rest := Select(rows[1..], q);
      assert InIdOrder(rows) ==> forall x :: x in rest ==> rows[0].id < x.id by {
        if InIdOrder(rows) {
          forall x | x in rest ensures rows[0].id < x.id {
            var j :| 0 <= j < |rows[1..]| && rows[1..][j] == x;
            assert rows[j + 1] == x;
          }
        }
      }
      [rows[0]] + rest
    else Select(rows[1..], q)
  }

  /**
   * A `SecretManager` bound to one database file. `stored` is what the file
   * holds; `session` is the open session's view of the table with its
   * pending changes, or None when no session is open.
   */
  class SecretManager {
    var stored: Table
    var session: Option<Table>

    ghost predicate Valid()
      reads this
    {
      WellFormed(stored) && (session.Some? ==> WellFormed(session.value))
    }

    /** `SecretManager(dbfile)`: no session yet. */
    constructor (db: Table)
      requires WellFormed(db)
      ensures Valid() && stored == db && session == None
    {
      stored := db;
      session := None;
    }

    /** `__enter__`: open a session that sees the stored table. */
    method Enter()
      requires Valid()
      modifies this
      ensures Valid() && stored == old(stored) && session == Some(stored)
    {
      session := Some(stored);
    }

    /** `__exit__`: close the session; changes it has not committed are lost. */
    method Exit()
      requires Valid()
      modifies this
      ensures Valid() && stored == old(stored) && session == None
    {
      session := None;
    }

    /**
     * Leaving `transaction()`. On normal exit the session commits. When the
     * body raised, the `except e:` clause itself fails (`e` is undefined), so
     * neither print nor rollback runs, nothing is committed and the error
     * propagates; the session keeps its pending changes until it is closed.
     */
    method EndTransaction(raised: bool)
      requires Valid() && session.Some?
      modifies this
      ensures Valid() && session == old(session)
      ensures stored == if raised then old(stored) else old(session).value
    {
      if !raised {
        stored := session.value;
      }
    }

    /**
     * `upsert(**kwargs)` on the session. `ok` is false when it raised; then
     * the session is as it was. Nothing reaches the stored table.
     */
    method Upsert(kwargs: map<Column, string>) returns (ok: bool)
      requires Valid() && session.Some?
      modifies this
      ensures Valid() && stored == old(stored)
      ensures ok <==> Upserted(old(session).value, kwargs).Ok?
      ensures session == if ok then Some(Upserted(old(session).value, kwargs).value) else old(session)
    {
      var t := session.value;
      var fields := kwargs - {Id};
      if HasKey(kwargs) {
        var key := RowKey(kwargs[Id]);
        if key.None? || key.value !in t.rows {
          return false;
        }
        var s := t.rows[key.value];
        var todo := fields.Keys;
        while todo != {}
          invariant todo <= fields.Keys
          invariant s == Assign(t.rows[key.value], fields - todo)
          invariant unchanged(this)
          decreases todo
        {
          var c :| c in todo;
          AssignOneMore(t.rows[key.value], fields, todo, c);
          s := SetField(s, c.field, fields[c]);
          todo := todo - {c};
        }
        assert fields - {} == fields;
        session := Some(Table(t.rows[key.value := s], t.nextId));
      } else {
        session := Some(Table(t.rows[t.nextId := NewSecret(t.nextId, fields)], t.nextId + 1));
      }
      UpsertKeepsRowsAndIds(t, kwargs);
      ok := true;
    }

    /** `listall()`: every row the session sees, each once, in id order. */
    function ListAll(): (r: seq<Secret>)
      reads this
      requires Valid() && session.Some?
      ensures InIdOrder(r)
      ensures forall x :: x in r <==> x in session.value.rows.Values
    {
      OrderedRows(session.value.rows, 1, session.value.nextId)
    }

    /** `query(q)`: exactly the rows the session sees that the search rule selects, in id order. */
    function Query(q: string): (r: seq<Secret>)
      reads this
      requires Valid() && session.Some?
      ensures InIdOrder(r)
      ensures forall x :: x in r <==> x in session.value.rows.Values && Matches(x, q)
    {
      Select(ListAll(), q)
    }
  }
}
