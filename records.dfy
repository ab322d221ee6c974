/**
 * The `Secret` record: one row of the table `pw`, with an integer primary key
 * `id` and five nullable text columns.
 */
module Records {
  import opened Wrappers

  /** The five text columns of `pw`. */
  datatype Field = Name | Website | User | Password | Notes

  /** A column of `pw`: the key `id` or one of the text columns. */
  datatype Column = Id | Col(field: Field)

  /** The columns in declaration order, as `inspect(Secret).columns.keys()` lists them. */
  const Columns: seq<Column> := [Id, Col(Name), Col(Website), Col(User), Col(Password), Col(Notes)]

  lemma ColumnsListsEveryColumn(c: Column)
    ensures c in Columns
  {
    match c
    case Id =>
    case Col(f) =>
      match f
      case Name => assert Columns[1] == c;
      case Website => assert Columns[2] == c;
      case User => assert Columns[3] == c;
      case Password => assert Columns[4] == c;
      case Notes => assert Columns[5] == c;
  }

  /** One row; `None` in a text column is SQL NULL. */
  datatype Secret = Secret(
    id: int,
    name: Option<string>,
    website: Option<string>,
    user: Option<string>,
    password: Option<string>,
    notes: Option<string>)

  /** `getattr(secret, f)` for a text column. */
  function Get(s: Secret, f: Field): Option<string>
  {
    match f
    case Name => s.name
    case Website => s.website
    case User => s.user
    case Password => s.password
    case Notes => s.notes
  }

  /** Two rows with the same id and the same text columns are the same row. */
  lemma SameColumnsSameSecret(a: Secret, b: Secret)
    requires a.id == b.id
    requires forall f :: Get(a, f) == Get(b, f)
    ensures a == b
  {
    assert Get(a, Name) == Get(b, Name) && Get(a, Website) == Get(b, Website);
    assert Get(a, User) == Get(b, User) && Get(a, Password) == Get(b, Password);
    assert Get(a, Notes) == Get(b, Notes);
  }

  /** `setattr(secret, f, v)`: column `f` becomes `v`; the id and every other column stay. */
  function SetField(s: Secret, f: Field, v: string): (r: Secret)
    ensures r.id == s.id
    ensures Get(r, f) == Some(v)
    ensures forall g :: g != f ==> Get(r, g) == Get(s, g)
  {
    match f
    case Name => s.(name := Some(v))
    case Website => s.(website := Some(v))
    case User => s.(user := Some(v))
    case Password => s.(password := Some(v))
    case Notes => s.(notes := Some(v))
  }

  function Pick(fields: map<Column, string>, f: Field, current: Option<string>): Option<string>
  {
    if Col(f) in fields then Some(fields[Col(f)]) else current
  }

  /**
   * The row after every text column named in `fields` has been set to its
   * value: the supplied columns take the supplied values, the others and the
   * id are those of `s`. An `Id` entry in `fields` is ignored.
   */
  function Assign(s: Secret, fields: map<Column, string>): (r: Secret)
    ensures r.id == s.id
    ensures forall f :: Col(f) in fields ==> Get(r, f) == Some(fields[Col(f)])
    ensures forall f :: Col(f) !in fields ==> Get(r, f) == Get(s, f)
  {
    Secret(s.id,
      Pick(fields, Name, s.name),
      Pick(fields, Website, s.website),
      Pick(fields, User, s.user),
      Pick(fields, Password, s.password),
      Pick(fields, Notes, s.notes))
  }

  /** Setting the columns of `fields` one more column at a time reaches `Assign`. */
  lemma AssignOneMore(s: Secret, fields: map<Column, string>, todo: set<Column>, c: Column)
    requires c in todo && c in fields && c.Col?
    ensures Assign(s, fields - (todo - {c})) == SetField(Assign(s, fields - todo), c.field, fields[c])
  {
  }

  /** Setting columns that already hold the values changes nothing. */
  lemma AssignIdempotent(s: Secret, fields: map<Column, string>)
    ensures Assign(Assign(s, fields), fields) == Assign(s, fields)
  {
  }

  /**
   * `Secret(**fields)` before the flush gives it an id: every text column is
   * NULL unless `fields` supplies it.
   */
  function NewSecret(id: int, fields: map<Column, string>): (r: Secret)
    ensures r.id == id
    ensures forall f :: Get(r, f) == Pick(fields, f, None)
  {
    Assign(Secret(id, None, None, None, None, None), fields)
  }

  /** Rows listed with strictly increasing ids, hence each at most once. */
  ghost predicate InIdOrder(r: seq<Secret>)
  {
    forall i, j :: 0 <= i < j < |r| ==> r[i].id < r[j].id
  }
}
