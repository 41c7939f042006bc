/** `IdGenerator::generate`: validates a configuration array, builds a WHERE
    clause from its `where` entries, asks the store how many rows match and,
    if any do, the largest id suffix among them, and composes
    `prefix . str_pad(next, length - strlen(prefix), '0', STR_PAD_LEFT)`.

    `GenerateOutcome` specifies one call as a value; the method `Generate`
    performs it step by step, as the source does, and is proved equal to it.
    A call yields the result (the id, or the exception thrown) together with
    the queries sent to the store, so that "no query before validation" can
    be stated. */
module IdGenerator {
  import opened Wrappers
  import opened PhpStrings
  import opened SqlStrings
  import opened Store

  /** A scalar configuration value: a PHP string or integer (callers pass
      `'prefix' => 101` as readily as `'prefix' => 'INV-'`). */
  datatype Scalar = Text(s: string) | Number(n: int)

  /** One entry `[column, value]` of the `where` array. */
  type Pair = (string, string)

  /** The `where` key: a string (rejected) or an array of entries. */
  datatype WhereValue = WhereText(s: string) | WhereList(entries: seq<Pair>)

  /** The configuration array; `None` is a key that is not present.
      `field` and `reset_on_prefix_change` are accepted and never read. */
  datatype Config = Config(
    table: Option<Scalar>,
    length: Option<Scalar>,
    prefix: Option<Scalar>,
    where: Option<WhereValue>,
    field: Option<Scalar>,
    resetOnPrefixChange: Option<bool>)

  /** What `generate` throws: an `Exception` with one of the messages below,
      or the store's error for a query it cannot run. */
  datatype Error = Exception(message: string) | QueryException

  const NeedTable: string := "Must need a table name"
  const NeedLength: string := "Must specify the length of ID"
  const NeedPrefix: string := "Must specify a prefix of your ID"
  const WhereIsString: string := "where clause must be an array, you provided string"
  const WhereIsEmpty: string := "where clause must need at least an array"

  /** The queries `generate` sends, with the WHERE text it appends to both. */
  datatype Query =
    | CountQuery(table: string, whereSql: string)
    | MaxQuery(table: string, start: int, width: int, whereSql: string)

  /** One call: its result and the queries it issued, in order. */
  datatype Generation = Generation(result: Result<string, Error>, queries: seq<Query>)

  /** `!array_key_exists($key) || $value == ''`. */
  predicate Blank(v: Option<Scalar>) {
    v.None? || v.value == Text("")
  }

  /** A scalar used as a string (`strlen`, concatenation). */
  function ScalarText(v: Scalar): string {
    match v
    case Text(s) => s
    case Number(n) => IntToText(n)
  }

  /** A scalar used in arithmetic (`$length - $prefixLength`). */
  function ScalarNumber(v: Scalar): int {
    match v
    case Text(s) => ToNumber(s)
    case Number(n) => n
  }

  /** The checks made before any query, in the source's order: table, length,
      prefix, then the shape of `where`. */
  function Validate(c: Config): Option<Error> {
    if Blank(c.table) then Some(Exception(NeedTable))
    else if Blank(c.length) then Some(Exception(NeedLength))
    else if Blank(c.prefix) then Some(Exception(NeedPrefix))
    else if c.where.Some? && c.where.value.WhereText? then Some(Exception(WhereIsString))
    else if c.where.Some? && c.where.value.entries == [] then Some(Exception(WhereIsEmpty))
    else None
  }

  predicate Valid(c: Config) {
    Validate(c).None?
  }

  function TableName(c: Config): string
    requires Valid(c)
  {
    ScalarText(c.table.value)
  }

  function PrefixText(c: Config): string
    requires Valid(c)
  {
    ScalarText(c.prefix.value)
  }

  /** `$idLength = $length - strlen($prefix)`: the width of the numeric part,
      with the prefix counted in bytes. */
  function IdWidth(c: Config): int
    requires Valid(c)
  {
    ScalarNumber(c.length.value) - StrLen(PrefixText(c))
  }

  /** The `where` entries, when the key is present as an array. */
  function Entries(c: Config): Option<seq<Pair>> {
    match c.where
    case Some(WhereList(es)) => Some(es)
    case _ => None
  }

  /** The mask `'AND '` handed to `rtrim`: four characters, not a word. */
  const AndMask: set<char> := {'A', 'N', 'D', ' '}

  function Term(p: Pair): string {
    p.0 + "=" + p.1
  }

  /** What the `foreach` appends: `col=val AND ` for every entry. */
  function Terms(ps: seq<Pair>): string {
    if ps == [] then "" else Terms(ps[..|ps| - 1]) + Term(ps[|ps| - 1]) + " AND "
  }

  /** The WHERE text after `rtrim($whereString, 'AND ')`. */
  function WhereString(entries: Option<seq<Pair>>): string {
    RTrim(if entries.None? then "" else " WHERE " + Terms(entries.value), AndMask)
  }

  /** Builds the WHERE text as the source does: append per entry, then trim. */
  method BuildWhereString(entries: Option<seq<Pair>>) returns (whereString: string)
    ensures whereString == WhereString(entries)
  {
    whereString := "";
    if entries.Some? {
      whereString := whereString + " WHERE ";
      var es := entries.value;
      var i := 0;
      while i < |es|
        invariant 0 <= i <= |es|
        invariant whereString == " WHERE " + Terms(es[..i])
      {
        assert es[..i + 1][..i] == es[..i];
        whereString := whereString + es[i].0 + "=" + es[i].1 + " AND ";
        i := i + 1;
      }
      assert es[..|es|] == es;
    }
    whereString := RTrim(whereString, AndMask);
  }

  /** The conditions the trimmed WHERE text expresses: the entries as given,
      except that the last value loses its trailing 'A', 'N', 'D' and spaces. */
  function Conditions(entries: Option<seq<Pair>>): seq<Condition> {
    if entries.None? || entries.value == [] then []
    else
      var es := entries.value;
      var last := es[|es| - 1];
      es[..|es| - 1] + [(last.0, RTrim(last.1, AndMask))]
  }

  /** `c1=v1 AND c2=v2 AND ... AND cn=vn`. */
  function Join(conds: seq<Condition>): string
    requires conds != []
  {
    if |conds| == 1 then Term(conds[0])
    else Join(conds[..|conds| - 1]) + " AND " + Term(conds[|conds| - 1])
  }

  /** The WHERE text of a list of conditions, empty for none. */
  function Render(conds: seq<Condition>): string {
    if conds == [] then "" else " WHERE " + Join(conds)
  }

  /** `MAX(...) + 1` in PHP: a NULL maximum counts as 0, a string as the
      integer PHP reads from it. */
  function SuffixNumber(max: Option<string>): int {
    match max
    case None => 0
    case Some(m) => ToNumber(m)
  }

  /** The number that follows the existing ids: 1 when no row is counted,
      otherwise one more than the largest suffix. */
  function NextNumber(t: Table, conds: seq<Condition>, offset: nat, width: int): int {
    if Count(t, conds) == 0 then 1 else SuffixNumber(MaxSuffix(t, conds, offset, width)) + 1
  }

  /** `$prefix . str_pad($n, $idLength, '0', STR_PAD_LEFT)`. */
  function Compose(prefix: string, n: int, width: int): string {
    prefix + StrPadLeft(IntToText(n), width, '0')
  }

  /** One call of `generate` on `c` against the store `db`. */
  function GenerateOutcome(c: Config, db: Database): Generation {
    match Validate(c)
    case Some(e) => Generation(Failure(e), [])
    case None => Produce(TableName(c), PrefixText(c), StrLen(PrefixText(c)), IdWidth(c), Entries(c), db)
  }

  /** The part of a call after validation and the two lengths: the WHERE text,
      the two queries and the id. `prefixLength` is `strlen($prefix)`. */
  function Produce(table: string, prefix: string, prefixLength: nat, width: int, entries: Option<seq<Pair>>, db: Database): Generation {
    var whereSql, conds := WhereString(entries), Conditions(entries);
    var count := CountQuery(table, whereSql);
    if !QueryValid(db, table, conds) then Generation(Failure(QueryException), [count])
    else
      var t := db[table];
      var queries := if Count(t, conds) == 0 then [count]
                     else [count, MaxQuery(table, prefixLength + 1, width, whereSql)];
      Generation(Success(Compose(prefix, NextNumber(t, conds, prefixLength, width), width)), queries)
  }

  /** `IdGenerator::generate($configArr)`, step by step. */
  method Generate(c: Config, db: Database) returns (g: Generation)
    ensures g == GenerateOutcome(c, db)
  {
    if Blank(c.table) {
      return Generation(Failure(Exception(NeedTable)), []);
    }
    if Blank(c.length) {
      return Generation(Failure(Exception(NeedLength)), []);
    }
    if Blank(c.prefix) {
      return Generation(Failure(Exception(NeedPrefix)), []);
    }
    if c.where.Some? {
      if c.where.value.WhereText? {
        return Generation(Failure(Exception(WhereIsString)), []);
      }
      if |c.where.value.entries| == 0 {
        return Generation(Failure(Exception(WhereIsEmpty)), []);
      }
    }

    assert Valid(c);
    var prefix := PrefixText(c);
    var prefixLength := StrLen(prefix);
    var idLength := ScalarNumber(c.length.value) - prefixLength;
    assert idLength == IdWidth(c);
    g := RunQueries(TableName(c), prefix, prefixLength, idLength, Entries(c), db);
  }

  /** The statements of `generate` after the width is known: the WHERE
      text, the two queries and the id. */
  method RunQueries(table: string, prefix: string, prefixLength: nat, idLength: int, entries: Option<seq<Pair>>, db: Database)
    returns (g: Generation)
    ensures g == Produce(table, prefix, prefixLength, idLength, entries, db)
  {
    var whereString := BuildWhereString(entries);

    var conds := Conditions(entries);
    var countQuery := CountQuery(table, whereString);
    if !QueryValid(db, table, conds) {
      return Generation(Failure(QueryException), [countQuery]);
    }
    var total := Count(db[table], conds);

    if total != 0 {
      var maxId := MaxSuffix(db[table], conds, prefixLength, idLength);
      var next := SuffixNumber(maxId) + 1;
      assert next == NextNumber(db[table], conds, prefixLength, idLength);
      var maxQuery := MaxQuery(table, prefixLength + 1, idLength, whereString);
      return Generation(Success(prefix + StrPadLeft(IntToText(next), idLength, '0')), [countQuery, maxQuery]);
    } else {
      assert NextNumber(db[table], conds, prefixLength, idLength) == 1;
      return Generation(Success(prefix + StrPadLeft(IntToText(1), idLength, '0')), [countQuery]);
    }
  }
}
