/**
 * The three command handlers of pwman.py: `upsert(args)`, `query(args)` and
 * `listall(args)`. Each binds a `SecretManager` to the database file, opens
 * a session, runs one operation in a scope and closes the session. The
 * database file is passed in as its table and handed back after the command.
 */
module Cli {
  import opened Wrappers
  import opened Records
  import opened Search
  import opened Store
  import SqlLike

  /** The options of the `upsert` subcommand; None where an option was not given. */
  datatype Args = Args(
    id: Option<string>,
    name: Option<string>,
    website: Option<string>,
    user: Option<string>,
    password: Option<string>,
    notes: Option<string>)

  /** `getattr(args, col, None)`. */
  function ArgOf(args: Args, c: Column): Option<string>
  {
    match c
    case Id => args.id
    case Col(Name) => args.name
    case Col(Website) => args.website
    case Col(User) => args.user
    case Col(Password) => args.password
    case Col(Notes) => args.notes
  }

  /** True when `getattr(args, col, None)` is truthy. */
  predicate Given(args: Args, c: Column)
  {
    ArgOf(args, c).Some? && Truthy(ArgOf(args, c).value)
  }

  /**
   * The keyword arguments handed to `SecretManager.upsert`: exactly the
   * columns whose option is truthy, each with its option's value.
   */
  function Supplied(args: Args): (kwargs: map<Column, string>)
    ensures forall c :: c in kwargs <==> Given(args, c)
    ensures forall c :: c in kwargs ==> Some(kwargs[c]) == ArgOf(args, c)
  {
    map c | c in Columns && Given(args, c) :: ArgOf(args, c).value
  }

  /** No value handed to `upsert` is empty, so no option can set a column to ''. */
  lemma SuppliedValuesAreTruthy(args: Args, c: Column)
    requires c in Supplied(args)
    ensures Truthy(Supplied(args)[c])
  {
  }

  /** Without a truthy `--id`, the command always inserts. */
  lemma NoIdMeansInsert(args: Args)
    requires args.id == None || args.id == Some("")
    ensures !HasKey(Supplied(args))
  {
  }

  /** The loop of `upsert(args)` that builds `upsert_kwargs`. */
  method CollectKwargs(args: Args) returns (kwargs: map<Column, string>)
    ensures kwargs == Supplied(args)
  {
    kwargs := map[];
    var i := 0;
    while i < |Columns|
      invariant 0 <= i <= |Columns|
      invariant forall c :: c in kwargs <==> c in Columns[..i] && Given(args, c)
      invariant forall c :: c in kwargs ==> Some(kwargs[c]) == ArgOf(args, c)
    {
      var col := Columns[i];
      var colval := ArgOf(args, col);
      if colval.Some? && Truthy(colval.value) {
        kwargs := kwargs[col := colval.value];
      }
      i := i + 1;
    }
    assert Columns[..i] == Columns;
    forall c ensures c in kwargs <==> c in Supplied(args) {
      ColumnsListsEveryColumn(c);
    }
  }

  /**
   * `upsert(args)`: one upsert in one transaction. When it raises (`ok` is
   * false) nothing is committed and the file keeps its table; otherwise the
   * file holds the upserted table.
   */
  method UpsertCommand(db: Table, args: Args) returns (db': Table, ok: bool)
    requires WellFormed(db)
    ensures WellFormed(db')
    ensures ok <==> Upserted(db, Supplied(args)).Ok?
    ensures db' == if ok then Upserted(db, Supplied(args)).value else db
  {
    var kwargs := CollectKwargs(args);
    var sm := new SecretManager(db);
    sm.Enter();
    ok := sm.Upsert(kwargs);
    sm.EndTransaction(!ok);
    sm.Exit();
    db' := sm.stored;
  }

  /** `query(args)`: the rows of the file the search rule selects, in id order. */
  method QueryCommand(db: Table, q: string) returns (secrets: seq<Secret>)
    requires WellFormed(db)
    ensures InIdOrder(secrets)
    ensures forall x :: x in secrets <==> x in db.rows.Values && Matches(x, q)
  {
    var sm := new SecretManager(db);
    sm.Enter();
    secrets := sm.Query(q);
    sm.Exit();
  }

  /** `listall(args)`: every row of the file, each once, in id order. */
  method ListCommand(db: Table) returns (secrets: seq<Secret>)
    requires WellFormed(db)
    ensures InIdOrder(secrets)
    ensures forall x :: x in secrets <==> x in db.rows.Values
  {
    var sm := new SecretManager(db);
    sm.Enter();
    secrets := sm.ListAll();
    sm.Exit();
  }

  /** The bank login of the scenario below, as stored under id 1. */
  const Bank := Secret(1, Some("bank"), Some("bank.example.com"), Some("alice"), Some("p1"), None)

  lemma InsertBank(args: Args)
    requires args == Args(None, Some("bank"), Some("bank.example.com"), Some("alice"), Some("p1"), None)
    ensures Upserted(Empty, Supplied(args)) == Ok(Table(map[1 := Bank], 2))
  {
    var kwargs := Supplied(args);
    assert !HasKey(kwargs);
    var r := NewSecret(1, kwargs - {Id});
    forall f ensures Get(r, f) == Get(Bank, f) {
      assert Col(f) in kwargs <==> f != Notes;
    }
    SameColumnsSameSecret(r, Bank);
  }

  lemma UpdateBankPassword(args: Args)
    requires args == Args(Some("1"), None, None, None, Some("p2"), None)
    ensures Upserted(Table(map[1 := Bank], 2), Supplied(args)) == Ok(Table(map[1 := Bank.(password := Some("p2"))], 2))
  {
    var kwargs := Supplied(args);
    assert Id in kwargs && kwargs[Id] == "1";
    assert RowKey("1") == Some(1) by {
      assert "1"[..0] == [];
    }
    var r := Assign(Bank, kwargs - {Id});
    forall f ensures Get(r, f) == Get(Bank.(password := Some("p2")), f) {
      assert Col(f) in kwargs - {Id} <==> f == Password;
    }
    SameColumnsSameSecret(r, Bank.(password := Some("p2")));
    assert map[1 := Bank][1 := r] == map[1 := r];
  }

  /** A listing in id order that holds exactly one row is that row alone. */
  lemma SingleRowListing(r: seq<Secret>, b: Secret)
    requires InIdOrder(r)
    requires forall x :: x in r <==> x == b
    ensures r == [b]
  {
    assert b in r;
    forall i | 0 <= i < |r| ensures r[i] == b {
      assert r[i] in r;
    }
    assert |r| >= 2 ==> r[0].id < r[1].id;
  }

  lemma BankFoundByName()
    ensures Matches(Bank, "bank")
  {
  }

  /**
   * A client of the commands: store a bank login in an empty file, find it by
   * its name, then change only its password.
   */
  method BankScenario()
  {
    var args1 := Args(None, Some("bank"), Some("bank.example.com"), Some("alice"), Some("p1"), None);
    InsertBank(args1);
    var db1, ok1 := UpsertCommand(Empty, args1);
    assert ok1 && db1 == Table(map[1 := Bank], 2);

    var found := QueryCommand(db1, "bank");
    BankFoundByName();
    SingleRowListing(found, Bank);

    var args2 := Args(Some("1"), None, None, None, Some("p2"), None);
    UpdateBankPassword(args2);
    var db2, ok2 := UpsertCommand(db1, args2);
    assert ok2 && db2.rows == map[1 := Bank.(password := Some("p2"))];
  }
}
