/** The repository's unit tests about generated ids, restated as lemmas
    about `GenerateOutcome` on an `invoices` table that starts with no ids,
    followed by worked examples: a prefix swap, a hyphenated prefix, and a
    number that outgrows its width. */
module IdGeneratorTests {
  import opened Wrappers
  import opened PhpStrings
  import opened SqlStrings
  import opened Store
  import opened IdGenerator
  import opened IdGeneratorProperties

  const Invoices: string := "invoices"

  /** `['table' => 'invoices', 'prefix' => $prefix, 'length' => 10]`. */
  function InvoiceConfig(prefix: int, reset: Option<bool>): (c: Config)
    ensures c.table == Some(Text(Invoices)) && c.length == Some(Number(10))
    ensures c.prefix == Some(Number(prefix)) && c.where.None? && c.resetOnPrefixChange == reset
  {
    Config(Some(Text(Invoices)), Some(Number(10)), Some(Number(prefix)), None, None, reset)
  }

  /** A row holding only an id. */
  function IdRow(id: string): (row: Row)
    ensures IdColumn in row && row[IdColumn] == id
  {
    map[IdColumn := id]
  }

  /** An `invoices` table with an `id` column and no counted id. */
  predicate EmptyInvoices(db: Database) {
    Invoices in db && IdColumn in db[Invoices].columns && MatchingIds(db[Invoices].rows, []) == []
  }

  lemma PrefixDigits(prefix: nat)
    requires 100 <= prefix < 1000
    ensures |IntToText(prefix)| == 3
  {
    assert Decimal(prefix) == Decimal(prefix / 10) + [DigitChar(prefix % 10)];
    assert Decimal(prefix / 10) == Decimal(prefix / 100) + [DigitChar(prefix / 10 % 10)];
  }

  /** A three-digit integer prefix with length 10 leaves seven digits. */
  lemma InvoiceShape(prefix: nat, reset: Option<bool>)
    requires 100 <= prefix < 1000
    ensures var c := InvoiceConfig(prefix, reset);
            Valid(c) && PrefixText(c) == IntToText(prefix) && |PrefixText(c)| == 3
            && IsAscii(PrefixText(c)) && StrLen(PrefixText(c)) == 3 && IdWidth(c) == 7
            && TableName(c) == Invoices && Conditions(Entries(c)) == []
  {
    PrefixDigits(prefix);
    IntToTextAscii(prefix);
    StrLenAscii(IntToText(prefix));
  }

  /** A one-digit number padded to seven digits. */
  lemma PaddedDigit(d: nat)
    requires 1 <= d <= 9
    ensures StrPadLeft(Decimal(d), 7, '0') == "000000" + [DigitChar(d)]
  {
    assert Repeat('0', 6) == "000000";
  }

  lemma SevenDigitsFit()
    ensures 9 < Pow10(7)
  {
    assert Pow10(1) == 10;
    Pow10Monotone(1, 7);
  }

  lemma Text101()
    ensures IntToText(101) == "101"
  {
    assert Decimal(10) == "10";
  }

  lemma Text102()
    ensures IntToText(102) == "102"
  {
    assert Decimal(10) == "10";
  }

  /** A prefix followed by a one-digit number padded to seven digits. */
  function InvoiceId(prefix: string, d: nat): (id: string)
    requires 1 <= d <= 9
    ensures |id| == |prefix| + 7
  {
    prefix + "000000" + [DigitChar(d)]
  }

  /** One round on the invoices table: with the next number a digit `n`, the
      id is `InvoiceId(n)`; storing it makes the next number `n + 1` and keeps
      the ids fixed-width. */
  lemma InvoiceStep(prefix: nat, reset: Option<bool>, db: Database, n: nat)
    requires 100 <= prefix < 1000
    requires Invoices in db && IdColumn in db[Invoices].columns
    requires FixedWidthIds(MatchingIds(db[Invoices].rows, []), 3, 7)
    requires 1 <= n <= 9 && NextNumber(db[Invoices], [], 3, 7) == n
    ensures var id := InvoiceId(IntToText(prefix), n);
            var db' := Insert(db, Invoices, IdRow(id));
            && GenerateOutcome(InvoiceConfig(prefix, reset), db).result == Success(id)
            && NextNumber(db'[Invoices], [], 3, 7) == n + 1
            && FixedWidthIds(MatchingIds(db'[Invoices].rows, []), 3, 7)
  {
    var c := InvoiceConfig(prefix, reset);
    InvoiceShape(prefix, reset);
    SevenDigitsFit();
    InvoiceResult(prefix, reset, db, n);
    SequentialIncrement(c, db, IdRow(InvoiceId(IntToText(prefix), n)));
  }

  /** With the next number a digit `n`, the id is `InvoiceId(n)`. */
  lemma InvoiceResult(prefix: nat, reset: Option<bool>, db: Database, n: nat)
    requires 100 <= prefix < 1000
    requires Invoices in db && IdColumn in db[Invoices].columns
    requires 1 <= n <= 9 && NextNumber(db[Invoices], [], 3, 7) == n
    ensures GenerateOutcome(InvoiceConfig(prefix, reset), db).result == Success(InvoiceId(IntToText(prefix), n))
  {
    var c := InvoiceConfig(prefix, reset);
    InvoiceShape(prefix, reset);
    ComposedDigit(IntToText(prefix), n);
    GeneratedId(c, db);
  }

  lemma ComposedDigit(p: string, n: nat)
    requires 1 <= n <= 9
    ensures Compose(p, n, 7) == InvoiceId(p, n)
  {
    PaddedDigit(n);
  }

  lemma InvoiceIds()
    ensures InvoiceId(IntToText(101), 1) == "1010000001"
    ensures InvoiceId(IntToText(101), 2) == "1010000002"
    ensures InvoiceId(IntToText(101), 3) == "1010000003"
  {
    Text101();
  }

  /** test_ID_generated and test_ID_incremented: on an empty table the first
      id is `1010000001`; once it is stored the next is `1010000002`, and once
      that is stored the next is `1010000003`, whatever `reset_on_prefix_change`
      says. */
  lemma IncrementTest(db: Database, reset: Option<bool>)
    requires EmptyInvoices(db)
    ensures var c := InvoiceConfig(101, reset);
            var db1 := Insert(db, Invoices, IdRow("1010000001"));
            var db2 := Insert(db1, Invoices, IdRow("1010000002"));
            && GenerateOutcome(c, db).result == Success("1010000001")
            && GenerateOutcome(c, db1).result == Success("1010000002")
            && GenerateOutcome(c, db2).result == Success("1010000003")
  {
    InvoiceIds();
    InvoiceStep(101, reset, db, 1);
    var db1 := Insert(db, Invoices, IdRow("1010000001"));
    InvoiceStep(101, reset, db1, 2);
    var db2 := Insert(db1, Invoices, IdRow("1010000002"));
    InvoiceStep(101, reset, db2, 3);
  }

  /** PrefixChangeContinues for an id written as the prefix and a tail. */
  lemma SameTail(c1: Config, c2: Config, db: Database, tail: string)
    requires Valid(c1) && Valid(c2)
    requires c1.table == c2.table && c1.length == c2.length && c1.where == c2.where
    requires StrLen(PrefixText(c1)) == StrLen(PrefixText(c2))
    requires GenerateOutcome(c1, db).result == Success(PrefixText(c1) + tail)
    ensures GenerateOutcome(c2, db).result == Success(PrefixText(c2) + tail)
  {
    PrefixChangeContinues(c1, c2, db);
    assert (PrefixText(c1) + tail)[|PrefixText(c1)|..] == tail;
  }

  /** Two three-digit prefixes give ids that differ only in the prefix. */
  lemma ThreeDigitPrefixSwap(p1: nat, p2: nat, reset1: Option<bool>, reset2: Option<bool>, db: Database, d: nat)
    requires 100 <= p1 < 1000 && 100 <= p2 < 1000 && 1 <= d <= 9
    requires GenerateOutcome(InvoiceConfig(p1, reset1), db).result == Success(InvoiceId(IntToText(p1), d))
    ensures GenerateOutcome(InvoiceConfig(p2, reset2), db).result == Success(InvoiceId(IntToText(p2), d))
  {
    InvoiceShape(p1, reset1);
    InvoiceShape(p2, reset2);
    var tail := "000000" + [DigitChar(d)];
    assert InvoiceId(IntToText(p1), d) == IntToText(p1) + tail;
    assert InvoiceId(IntToText(p2), d) == IntToText(p2) + tail;
    SameTail(InvoiceConfig(p1, reset1), InvoiceConfig(p2, reset2), db, tail);
  }

  lemma ResetId()
    ensures InvoiceId(IntToText(102), 3) == "1020000003"
  {
    Text102();
  }

  /** test_ID_reset_on_prefix_change: with `reset_on_prefix_change` set,
      prefix 101 gives `1010000001` and then `1010000002`; once both are
      stored, prefix 102 gives `1020000003`. The flag is not read, so the
      number does not restart at 1, and the new id is not the old one plus
      one. */
  lemma ResetTest(db: Database)
    requires EmptyInvoices(db)
    ensures var db1 := Insert(db, Invoices, IdRow("1010000001"));
            var db2 := Insert(db1, Invoices, IdRow("1010000002"));
            && GenerateOutcome(InvoiceConfig(101, Some(true)), db).result == Success("1010000001")
            && GenerateOutcome(InvoiceConfig(101, Some(true)), db1).result == Success("1010000002")
            && GenerateOutcome(InvoiceConfig(102, Some(true)), db2).result == Success("1020000003")
            && GenerateOutcome(InvoiceConfig(102, Some(true)), db2).result != Success("1010000003")
  {
    var db1 := Insert(db, Invoices, IdRow("1010000001"));
    var db2 := Insert(db1, Invoices, IdRow("1010000002"));
    IncrementTest(db, Some(true));
    InvoiceIds();
    ThreeDigitPrefixSwap(101, 102, Some(true), Some(true), db2, 3);
    ResetId();
  }

  /** `['table' => 'invoices', 'prefix' => 'INV', 'length' => 8]`. */
  function HyphenConfig(): (c: Config)
    ensures c.prefix == Some(Text("INV")) && c.length == Some(Number(8)) && c.where.None?
  {
    Config(Some(Text(Invoices)), Some(Number(8)), Some(Text("INV")), None, None, None)
  }

  lemma HyphenShape()
    ensures var c := HyphenConfig();
            Valid(c) && PrefixText(c) == "INV" && StrLen(PrefixText(c)) == 3 && IdWidth(c) == 5
            && TableName(c) == Invoices && Conditions(Entries(c)) == []
  {
    assert IsAscii("INV");
    StrLenAscii("INV");
  }

  lemma HyphenSuffix()
    ensures Substr("INV-0001", 3, 5) == "-0001"
  {
    assert "INV-0001"[3..8] == "-0001";
  }

  lemma ZeroPadded()
    ensures Compose("INV", 0, 5) == "INV00000"
  {
    assert IntToText(0) == "0";
    assert Repeat('0', 4) == "0000";
  }

  /** Ids written as `INV-0001` and the prefix `INV`: `SUBSTR(id, 4, 5)` is
      `-0001`, which PHP reads as -1, so the next id is `INV00000` and not
      `INV00001`. */
  lemma HyphenatedPrefix(db: Database)
    requires Invoices in db && IdColumn in db[Invoices].columns
    requires MatchingIds(db[Invoices].rows, []) == ["INV-0001"]
    ensures GenerateOutcome(HyphenConfig(), db).result == Success("INV00000")
  {
    var c := HyphenConfig();
    HyphenShape();
    assert QueryValid(db, Invoices, []);
    HyphenSuffix();
    ToNumberSigned();
    var t := db[Invoices];
    assert Suffixes(MatchingIds(t.rows, []), 3, 5) == ["-0001"];
    assert MaxSuffix(t, [], 3, 5) == Some("-0001");
    assert NextNumber(t, [], 3, 5) == 0;
    ZeroPadded();
    GeneratedId(c, db);
    assert GenerateOutcome(c, db).result == Success(Compose("INV", NextNumber(t, [], 3, 5), 5));
  }

  /** `['table' => 'invoices', 'prefix' => 'P', 'length' => 2]`. */
  function NarrowConfig(): (c: Config)
    ensures c.prefix == Some(Text("P")) && c.length == Some(Number(2)) && c.where.None?
  {
    Config(Some(Text(Invoices)), Some(Number(2)), Some(Text("P")), None, None, None)
  }

  lemma NarrowShape()
    ensures var c := NarrowConfig();
            Valid(c) && PrefixText(c) == "P" && StrLen(PrefixText(c)) == 1 && IdWidth(c) == 1
            && TableName(c) == Invoices && Conditions(Entries(c)) == []
  {
    assert IsAscii("P");
    StrLenAscii("P");
  }

  lemma TenText()
    ensures Compose("P", 10, 1) == "P10"
  {
    assert IntToText(10) == "10";
  }

  /** With the ids `P9`, `P10` the one-character suffixes are `9` and `1`,
      and `9` is the larger string. */
  lemma NarrowMax(t: Table)
    requires MatchingIds(t.rows, []) == ["P9", "P10"]
    ensures MaxSuffix(t, [], 1, 1) == Some("9")
  {
    assert Substr("P9", 1, 1) == "9";
    assert Substr("P10", 1, 1) == "1";
    assert Suffixes(MatchingIds(t.rows, []), 1, 1) == ["9", "1"];
    assert !LexLe("9", "1");
  }

  /** Once the number outgrows the width the source repeats an id: prefix
      `P`, length 2 and the stored id `P9` give `P10`; with `P10` stored,
      `SUBSTR(id, 2, 1)` reads only its `1`, the greatest suffix is still
      `9`, and the next call returns `P10` again. */
  lemma OverflowRepeats(db: Database)
    requires Invoices in db && IdColumn in db[Invoices].columns
    requires MatchingIds(db[Invoices].rows, []) == ["P9"]
    ensures GenerateOutcome(NarrowConfig(), db).result == Success("P10")
    ensures GenerateOutcome(NarrowConfig(), Insert(db, Invoices, IdRow("P10"))).result == Success("P10")
  {
    var c := NarrowConfig();
    NarrowShape();
    TenText();
    var t := db[Invoices];
    assert QueryValid(db, Invoices, []);
    assert Substr("P9", 1, 1) == "9";
    assert Suffixes(MatchingIds(t.rows, []), 1, 1) == ["9"];
    assert MaxSuffix(t, [], 1, 1) == Some("9");
    assert ToNumber("9") == 9;
    assert NextNumber(t, [], 1, 1) == 10;
    GeneratedId(c, db);

    var db' := Insert(db, Invoices, IdRow("P10"));
    var t' := db'[Invoices];
    MatchingIdsAppend(t.rows, IdRow("P10"), []);
    assert MatchingIds(t'.rows, []) == ["P9", "P10"];
    assert QueryValid(db', Invoices, []);
    NarrowMax(t');
    assert NextNumber(t', [], 1, 1) == 10;
    GeneratedId(c, db');
  }
}
