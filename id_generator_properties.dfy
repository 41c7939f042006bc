/** What `IdGenerator::generate` promises, proved about `GenerateOutcome`
    (and so, through `Generate`'s postcondition, about the step-by-step
    method too). */
module IdGeneratorProperties {
  import opened Wrappers
  import opened PhpStrings
  import opened SqlStrings
  import opened Store
  import opened IdGenerator

  // ---------------------------------------------------------------------
  // Validation

  /** The checks run in a fixed order, table, length, prefix, then `where`,
      and each failure is reported before any query is sent. */
  lemma ValidationOrder(c: Config, db: Database)
    ensures Blank(c.table)
            ==> GenerateOutcome(c, db) == Generation(Failure(Exception(NeedTable)), [])
    ensures !Blank(c.table) && Blank(c.length)
            ==> GenerateOutcome(c, db) == Generation(Failure(Exception(NeedLength)), [])
    ensures !Blank(c.table) && !Blank(c.length) && Blank(c.prefix)
            ==> GenerateOutcome(c, db) == Generation(Failure(Exception(NeedPrefix)), [])
    ensures !Blank(c.table) && !Blank(c.length) && !Blank(c.prefix) && c.where.Some? && c.where.value.WhereText?
            ==> GenerateOutcome(c, db) == Generation(Failure(Exception(WhereIsString)), [])
    ensures !Blank(c.table) && !Blank(c.length) && !Blank(c.prefix) && c.where == Some(WhereList([]))
            ==> GenerateOutcome(c, db) == Generation(Failure(Exception(WhereIsEmpty)), [])
  {
  }

  /** The store is consulted exactly when the configuration is valid, and
      then the count query comes first. */
  lemma QueriesOnlyAfterValidation(c: Config, db: Database)
    ensures GenerateOutcome(c, db).queries == [] <==> !Valid(c)
    ensures Valid(c) ==> GenerateOutcome(c, db).queries[0] == CountQuery(TableName(c), WhereString(Entries(c)))
  {
  }

  /** A configuration error does not depend on what the store holds. */
  lemma ConfigErrorIgnoresStore(c: Config, db1: Database, db2: Database)
    requires !Valid(c)
    ensures GenerateOutcome(c, db1) == GenerateOutcome(c, db2)
    ensures GenerateOutcome(c, db1).result == Failure(Validate(c).value)
  {
  }

  /** The three "required" tests: a missing table, a missing prefix and a
      missing length (with an integer prefix) give their messages. */
  lemma RequiredKeyTests(db: Database)
    ensures GenerateOutcome(Config(None, Some(Number(10)), Some(Text("ID")), None, None, None), db).result
            == Failure(Exception("Must need a table name"))
    ensures GenerateOutcome(Config(Some(Text("users")), Some(Number(10)), None, None, None, None), db).result
            == Failure(Exception("Must specify a prefix of your ID"))
    ensures GenerateOutcome(Config(Some(Text("users")), None, Some(Number(10)), None, None, None), db).result
            == Failure(Exception("Must specify the length of ID"))
  {
  }

  // ---------------------------------------------------------------------
  // The WHERE clause

  lemma {:induction false} TermsJoin(ps: seq<Pair>)
    requires ps != []
    ensures Terms(ps) == Join(ps) + " AND "
  {
    if |ps| > 1 {
      TermsJoin(ps[..|ps| - 1]);
    } else {
      assert ps[..0] == [];
    }
  }

  /** The mask removes a trailing " AND " and whatever it would remove
      without it. */
  lemma TrimDropsAnd(s: string)
    ensures RTrim(s + " AND ", AndMask) == RTrim(s, AndMask)
  {
    assert RTrim(" AND ", AndMask) == [];
    RTrimAppend(s, " AND ", AndMask);
  }

  /** The mask never reaches past an `=`. */
  lemma TrimStopsAtEquals(x: string, v: string)
    ensures RTrim(x + "=" + v, AndMask) == x + "=" + RTrim(v, AndMask)
  {
    var y := x + "=";
    assert RTrim(y, AndMask) == y by {
      assert y[|y| - 1] == '=' && '=' !in AndMask;
    }
    RTrimAppend(y, v, AndMask);
    assert y + [] == y;
  }

  /** Trimming what the `foreach` built stops at the last entry's `=`. */
  lemma TrimmedTerms(es: seq<Pair>)
    requires es != []
    ensures var init, last := es[..|es| - 1], es[|es| - 1];
            RTrim(" WHERE " + Terms(es), AndMask)
            == " WHERE " + (Terms(init) + Term((last.0, RTrim(last.1, AndMask))))
  {
    var init, last := es[..|es| - 1], es[|es| - 1];
    var x := " WHERE " + Terms(init) + last.0;
    var v := RTrim(last.1, AndMask);
    Regroup(" WHERE ", Terms(init), last.0, last.1, " AND ");
    TrimDropsAnd(x + "=" + last.1);
    TrimStopsAtEquals(x, last.1);
    Regroup(" WHERE ", Terms(init), last.0, v, "");
    assert x + "=" + v + "" == x + "=" + v;
    assert Terms(init) + Term((last.0, v)) + "" == Terms(init) + Term((last.0, v));
  }

  /** Regrouping `w + term + tail` so that the WHERE text so far, the
      column and `=` come first. */
  lemma Regroup(w: string, t: string, k: string, v: string, tail: string)
    ensures w + (t + Term((k, v)) + tail) == (w + t + k + "=" + v) + tail
  {
  }

  lemma JoinAppend(init: seq<Condition>, cond: Condition)
    ensures Join(init + [cond]) == Terms(init) + Term(cond)
  {
    var conds := init + [cond];
    if init == [] {
      assert conds == [cond];
    } else {
      TermsJoin(init);
      assert conds[..|conds| - 1] == init;
    }
  }

  /** The trimmed WHERE text is exactly the rendering of `Conditions`: every
      entry as given, except that the last value has lost its trailing 'A',
      'N', 'D' and space characters. Without `where` both are empty. */
  lemma WhereStringRendersConditions(entries: Option<seq<Pair>>)
    requires entries != Some([])
    ensures WhereString(entries) == Render(Conditions(entries))
  {
    if entries.Some? {
      var es := entries.value;
      var init, last := es[..|es| - 1], es[|es| - 1];
      var cond := (last.0, RTrim(last.1, AndMask));
      TrimmedTerms(es);
      JoinAppend(init, cond);
      assert Conditions(entries) == init + [cond];
    }
  }

  /** The WHERE text never ends in one of the mask's characters. */
  lemma WhereStringEnding(entries: Option<seq<Pair>>)
    ensures var w := WhereString(entries); w == [] || w[|w| - 1] !in AndMask
  {
  }

  /** The mask eats into the last value: the entry `['status', 'PAID']`,
      appended as `status=PAID AND `, is sent as `status=PAI`. */
  lemma TrimEatsLastValue()
    ensures WhereString(Some([("status", "PAID")])) == " WHERE status=PAI"
    ensures Conditions(Some([("status", "PAID")])) == [("status", "PAI")]
  {
    var entries := Some([("status", "PAID")]);
    assert RTrim("PAID", AndMask) == "PAI" by {
      assert "PAID"[..3] == "PAI";
    }
    assert Conditions(entries) == [("status", "PAI")];
    assert Render([("status", "PAI")]) == " WHERE status=PAI" by {
      assert Join([("status", "PAI")]) == "status=PAI";
    }
    WhereStringRendersConditions(entries);
  }

  // ---------------------------------------------------------------------
  // The generated id

  /** With no row counted, the id is the prefix and "1" padded with zeros
      to the width; its length is then exactly `length` when the width is
      positive. Only the count query is sent. */
  lemma FirstId(c: Config, db: Database)
    requires Valid(c) && QueryValid(db, TableName(c), Conditions(Entries(c)))
    requires Count(db[TableName(c)], Conditions(Entries(c))) == 0
    ensures GenerateOutcome(c, db).result == Success(PrefixText(c) + StrPadLeft("1", IdWidth(c), '0'))
    ensures GenerateOutcome(c, db).queries == [CountQuery(TableName(c), WhereString(Entries(c)))]
    ensures IdWidth(c) >= 1 ==> StrLen(GenerateOutcome(c, db).result.value) == ScalarNumber(c.length.value)
  {
    assert IntToText(1) == "1";
    var pad := StrPadLeft("1", IdWidth(c), '0');
    ZeroPadValue("1", IdWidth(c));
    DigitsAscii(pad);
    StrLenConcat(PrefixText(c), pad);
  }

  /** A valid configuration reaches `Produce`; a query the store accepts
      yields the composed id for the next number. */
  lemma OutcomeWhenValid(c: Config, db: Database)
    requires Valid(c)
    ensures GenerateOutcome(c, db) == Produce(TableName(c), PrefixText(c), StrLen(PrefixText(c)), IdWidth(c), Entries(c), db)
  {
  }

  lemma ProduceAccepted(table: string, prefix: string, offset: nat, width: int, entries: Option<seq<Pair>>, db: Database)
    requires QueryValid(db, table, Conditions(entries))
    ensures var conds := Conditions(entries);
            var n := NextNumber(db[table], conds, offset, width);
            && Produce(table, prefix, offset, width, entries, db).result == Success(Compose(prefix, n, width))
            && Produce(table, prefix, offset, width, entries, db).queries
               == if Count(db[table], conds) == 0 then [CountQuery(table, WhereString(entries))]
                  else [CountQuery(table, WhereString(entries)), MaxQuery(table, offset + 1, width, WhereString(entries))]
  {
  }

  /** A call the store accepts returns the composed id for the next number. */
  lemma GeneratedId(c: Config, db: Database)
    requires Valid(c) && QueryValid(db, TableName(c), Conditions(Entries(c)))
    ensures GenerateOutcome(c, db).result
            == Success(Compose(PrefixText(c), NextNumber(db[TableName(c)], Conditions(Entries(c)), StrLen(PrefixText(c)), IdWidth(c)), IdWidth(c)))
  {
    OutcomeWhenValid(c, db);
    ProduceAccepted(TableName(c), PrefixText(c), StrLen(PrefixText(c)), IdWidth(c), Entries(c), db);
  }

  /** A query the store cannot run (a missing table, as in the "table not
      found" test, or a missing column) fails the call after the count query
      is sent, with the store's error. */
  lemma StoreRejectsQuery(c: Config, db: Database)
    requires Valid(c) && !QueryValid(db, TableName(c), Conditions(Entries(c)))
    ensures GenerateOutcome(c, db) == Generation(Failure(QueryException), [CountQuery(TableName(c), WhereString(Entries(c)))])
    ensures TableName(c) !in db ==> GenerateOutcome(c, db).result == Failure(QueryException)
  {
  }

  /** With rows counted, the id continues from the greatest suffix: the
      `length - strlen(prefix)` characters at offset `strlen(prefix)` of every
      counted id, compared as strings, whatever prefix those ids carry, and
      read as PHP reads an integer (white space and a sign included). */
  lemma NextIdFromGreatestSuffix(c: Config, db: Database)
    requires Valid(c) && QueryValid(db, TableName(c), Conditions(Entries(c)))
    requires Count(db[TableName(c)], Conditions(Entries(c))) > 0
    ensures var t, conds, p, w := db[TableName(c)], Conditions(Entries(c)), PrefixText(c), IdWidth(c);
            var max := MaxSuffix(t, conds, StrLen(p), w);
            && max.Some?
            && NextNumber(t, conds, StrLen(p), w) == ToNumber(max.value) + 1
            && GenerateOutcome(c, db).result == Success(Compose(p, NextNumber(t, conds, StrLen(p), w), w))
            && GenerateOutcome(c, db).queries
               == [CountQuery(TableName(c), WhereString(Entries(c))), MaxQuery(TableName(c), StrLen(p) + 1, w, WhereString(Entries(c)))]
  {
    OutcomeWhenValid(c, db);
    ProduceAccepted(TableName(c), PrefixText(c), StrLen(PrefixText(c)), IdWidth(c), Entries(c), db);
  }

  /** The next number is below 1 only when some row is counted and the
      greatest suffix reads as a negative number (say `-0001`, from an id
      `INV-0001` read at the offset of prefix `INV`). */
  lemma NextNumberBelowOne(t: Table, conds: seq<Condition>, offset: nat, width: int)
    ensures NextNumber(t, conds, offset, width) < 1
            ==> Count(t, conds) > 0 && NegativeSign(MaxSuffix(t, conds, offset, width).value)
  {
  }

  /** Zero padding never truncates: the suffix is the number's digits,
      left-padded to the width when they are fewer, and they are all of it
      when the width is not positive. */
  lemma ComposeShape(prefix: string, n: nat, width: int)
    ensures var id := Compose(prefix, n, width);
            && |id| == |prefix| + Max(width, |Decimal(n)|)
            && id[..|prefix|] == prefix
            && AllDigits(id[|prefix|..]) && Value(id[|prefix|..]) == n
            && (width <= 0 ==> id == prefix + Decimal(n))
            && (width >= 1 && n < Pow10(width) ==> |id| == |prefix| + width)
  {
    var pad := StrPadLeft(Decimal(n), width, '0');
    ZeroPadValue(Decimal(n), width);
    assert Compose(prefix, n, width)[|prefix|..] == pad;
    if width >= 1 && n < Pow10(width) {
      DecimalFits(n, width);
    }
  }

  /** The number is padded as text, so a negative one gets its zeros in
      front of the minus sign (`str_pad(-4, 5, '0', STR_PAD_LEFT)` is
      `000-4`). */
  lemma NegativeComposeShape(prefix: string, n: int, width: int)
    requires n < 0
    ensures var s := IntToText(n);
            && Compose(prefix, n, width) == prefix + Repeat('0', Max(width - |s|, 0)) + s
            && s[0] == '-' && AllDigits(s[1..]) && Value(s[1..]) == -n
  {
    var s := IntToText(n);
    PadLeftSplit(s, width, '0');
    ConcatAssociative(prefix, Repeat('0', Max(width - |s|, 0)), s);
  }

  lemma ConcatAssociative(a: string, b: string, c: string)
    ensures a + (b + c) == a + b + c
  {
  }

  /** A composed id whose number fits the width has exactly the width's
      bytes after the prefix, since digits are one byte each. */
  lemma ComposeBytes(prefix: string, n: nat, width: int)
    requires width >= 1 && n < Pow10(width)
    ensures StrLen(Compose(prefix, n, width)) == StrLen(prefix) + width
  {
    var pad := StrPadLeft(Decimal(n), width, '0');
    DecimalFits(n, width);
    ZeroPadValue(Decimal(n), width);
    DigitsAscii(pad);
    StrLenConcat(prefix, pad);
  }

  /** The shape of `prefix . str_pad(n, width, '0', STR_PAD_LEFT)` for any
      integer: digits after the prefix when `n` is not negative, zeros in
      front of the sign when it is. */
  lemma ComposedIdShape(prefix: string, n: int, width: int)
    ensures var id := Compose(prefix, n, width);
            && id[..|prefix|] == prefix
            && (n >= 0 ==> |id| == |prefix| + Max(width, |Decimal(n)|)
                           && AllDigits(id[|prefix|..]) && Value(id[|prefix|..]) == n
                           && (width <= 0 ==> id == prefix + Decimal(n)))
            && (n < 0 ==> var s := IntToText(n);
                          && id == prefix + Repeat('0', Max(width - |s|, 0)) + s
                          && s[0] == '-' && AllDigits(s[1..]) && Value(s[1..]) == -n)
            && (width >= 1 && 0 <= n < Pow10(width) ==> StrLen(id) == StrLen(prefix) + width)
  {
    if n >= 0 {
      ComposeShape(prefix, n, width);
      if width >= 1 && n < Pow10(width) {
        ComposeBytes(prefix, n, width);
      }
    } else {
      NegativeComposeShape(prefix, n, width);
    }
  }

  /** Every id `generate` returns starts with the prefix. When the next
      number is not negative the rest is its digits, at least
      `length - strlen(prefix)` of them, and the id is `length` bytes long
      when the number fits. A number below 1 only comes from a greatest
      suffix PHP reads as negative; ComposedIdShape gives the shape of the
      id for a negative number. */
  lemma ResultShape(c: Config, db: Database)
    requires GenerateOutcome(c, db).result.Success?
    ensures Valid(c) && QueryValid(db, TableName(c), Conditions(Entries(c)))
    ensures var id, p, w := GenerateOutcome(c, db).result.value, PrefixText(c), IdWidth(c);
            var t, conds := db[TableName(c)], Conditions(Entries(c));
            var n := NextNumber(t, conds, StrLen(p), w);
            && id[..|p|] == p
            && (n >= 0 ==> |id| == |p| + Max(w, |Decimal(n)|)
                           && AllDigits(id[|p|..]) && Value(id[|p|..]) == n
                           && (w <= 0 ==> id == p + Decimal(n)))
            && (n < 1 ==> Count(t, conds) > 0 && NegativeSign(MaxSuffix(t, conds, StrLen(p), w).value))
            && (w >= 1 && 0 <= n < Pow10(w) ==> StrLen(id) == ScalarNumber(c.length.value))
  {
    var p, w := PrefixText(c), IdWidth(c);
    var t, conds := db[TableName(c)], Conditions(Entries(c));
    var n := NextNumber(t, conds, StrLen(p), w);
    GeneratedId(c, db);
    NextNumberBelowOne(t, conds, StrLen(p), w);
    ComposedIdShape(p, n, w);
  }

  // ---------------------------------------------------------------------
  // Sequential increment

  /** The `width` characters of `s` from position `offset` are digits. */
  predicate DigitsAt(s: string, offset: nat, width: nat) {
    |s| >= offset + width && forall j :: offset <= j < offset + width ==> IsDigit(s[j])
  }

  /** Every id carries `width` digits at `offset`, as the ids generated with
      one prefix length and one total length do. */
  predicate FixedWidthIds(ids: seq<string>, offset: nat, width: nat) {
    forall i :: 0 <= i < |ids| ==> DigitsAt(ids[i], offset, width)
  }

  lemma SubstrWithin(s: string, offset: nat, width: nat)
    requires width >= 1 && |s| >= offset + width
    ensures Substr(s, offset, width) == s[offset..offset + width]
  {
  }

  /** `SUBSTR` of digits at a position is a digit string of that width. */
  lemma SubstrDigits(s: string, offset: nat, width: nat)
    requires DigitsAt(s, offset, width)
    ensures |Substr(s, offset, width)| == width && AllDigits(Substr(s, offset, width))
  {
    var r := Substr(s, offset, width);
    forall k | 0 <= k < |r| ensures IsDigit(r[k]) {
      assert r[k] == s[offset + k];
    }
  }

  /** A number that fits the width, zero-padded to it, is exactly `width`
      digits denoting that number. */
  lemma PadFits(n: nat, width: nat)
    requires width >= 1 && n < Pow10(width)
    ensures var pad := StrPadLeft(Decimal(n), width, '0');
            |pad| == width && AllDigits(pad) && Value(pad) == n
  {
    DecimalFits(n, width);
    ZeroPadValue(Decimal(n), width);
  }

  /** The part after a prefix, read by `SUBSTR`. */
  lemma SuffixOfConcat(prefix: string, s: string)
    requires |s| >= 1
    ensures Substr(prefix + s, |prefix|, |s|) == s
  {
    var id := prefix + s;
    assert id[|prefix|..|prefix| + |s|] == s;
    SubstrWithin(id, |prefix|, |s|);
  }

  /** A composed id whose number fits the width carries exactly the padded
      number at the prefix's offset. */
  lemma ComposedSuffix(prefix: string, n: nat, width: nat)
    requires width >= 1 && n < Pow10(width)
    ensures Substr(Compose(prefix, n, width), |prefix|, width) == StrPadLeft(Decimal(n), width, '0')
  {
    var pad := StrPadLeft(Decimal(n), width, '0');
    PadFits(n, width);
    assert Compose(prefix, n, width) == prefix + pad;
    SuffixOfConcat(prefix, pad);
  }

  /** The digits after a prefix are digits at the prefix's offset. */
  lemma DigitsAfterPrefix(prefix: string, s: string)
    requires AllDigits(s)
    ensures DigitsAt(prefix + s, |prefix|, |s|)
  {
    forall j | |prefix| <= j < |prefix| + |s| ensures IsDigit((prefix + s)[j]) {
      assert (prefix + s)[j] == s[j - |prefix|];
    }
  }

  /** A number that fits the width, zero-padded to it, is `width` digits. */
  lemma PadDigits(n: nat, width: nat)
    requires width >= 1 && n < Pow10(width)
    ensures |StrPadLeft(Decimal(n), width, '0')| == width
    ensures AllDigits(StrPadLeft(Decimal(n), width, '0'))
  {
    DecimalFits(n, width);
    ZeroPadValue(Decimal(n), width);
  }

  /** A composed id whose number fits the width has `width` digits at the
      prefix's offset. */
  lemma ComposedDigits(prefix: string, n: nat, width: nat)
    requires width >= 1 && n < Pow10(width)
    ensures DigitsAt(Compose(prefix, n, width), |prefix|, width)
  {
    PadDigits(n, width);
    DigitsAfterPrefix(prefix, StrPadLeft(Decimal(n), width, '0'));
  }

  /** Among fixed-width digit strings, one numerically above all the others
      is the `MAX` once it is added. */
  lemma MaxAfterAppend(ss: seq<string>, x: string, width: nat)
    requires forall i :: 0 <= i < |ss| ==> |ss[i]| == width && AllDigits(ss[i])
    requires |x| == width && AllDigits(x)
    requires forall i :: 0 <= i < |ss| ==> Value(ss[i]) < Value(x)
    ensures MaxOf(ss + [x]) == x
  {
    var all := ss + [x];
    forall i | 0 <= i < |all| ensures LexLe(all[i], x) {
      if i < |ss| {
        assert all[i] == ss[i];
        LexOrderIsNumeric(ss[i], x);
      } else {
        LexLeReflexive(x);
      }
    }
    MaxOfIsGreatest(all, x);
  }

  /** Under fixed-width ids, every suffix is a `width`-digit string below
      the next number. */
  lemma SuffixesBelowNext(t: Table, conds: seq<Condition>, offset: nat, width: nat)
    requires width >= 1
    requires FixedWidthIds(MatchingIds(t.rows, conds), offset, width)
    ensures var ss := Suffixes(MatchingIds(t.rows, conds), offset, width);
            forall i :: 0 <= i < |ss| ==> |ss[i]| == width && AllDigits(ss[i]) && Value(ss[i]) < NextNumber(t, conds, offset, width)
    ensures NextNumber(t, conds, offset, width) >= 1
  {
    var ids := MatchingIds(t.rows, conds);
    var ss := Suffixes(ids, offset, width);
    forall i | 0 <= i < |ss| ensures |ss[i]| == width && AllDigits(ss[i]) {
      SubstrDigits(ids[i], offset, width);
    }
    if ss != [] {
      var m := MaxSuffix(t, conds, offset, width).value;
      assert m in ss;
      assert NextNumber(t, conds, offset, width) == Value(m) + 1;
      forall i | 0 <= i < |ss| ensures Value(ss[i]) <= Value(m) {
        assert LexLe(ss[i], m);
        LexOrderIsNumeric(ss[i], m);
      }
    }
  }

  lemma SuffixesAppend(ids: seq<string>, x: string, offset: nat, width: int)
    ensures Suffixes(ids + [x], offset, width) == Suffixes(ids, offset, width) + [Substr(x, offset, width)]
  {
  }

  /** Appending an id with `width` digits at `offset`, or nothing, keeps a
      list fixed-width. */
  lemma FixedWidthAppend(ids: seq<string>, x: string, appended: bool, offset: nat, width: nat)
    requires FixedWidthIds(ids, offset, width)
    requires DigitsAt(x, offset, width)
    ensures FixedWidthIds(ids + if appended then [x] else [], offset, width)
  {
    var all := ids + if appended then [x] else [];
    forall i | 0 <= i < |all| ensures DigitsAt(all[i], offset, width) {
      if i < |ids| { assert all[i] == ids[i]; }
    }
  }

  /** On one table: after appending a row that carries the composed id for
      the next number, that id's suffix is the greatest. */
  lemma MaxAfterInsert(t: Table, conds: seq<Condition>, prefix: string, width: nat, row: Row)
    requires width >= 1
    requires FixedWidthIds(MatchingIds(t.rows, conds), |prefix|, width)
    requires NextNumber(t, conds, |prefix|, width) < Pow10(width)
    requires Matches(row, conds) && IdColumn in row
    requires row[IdColumn] == Compose(prefix, NextNumber(t, conds, |prefix|, width), width)
    ensures NextNumber(t, conds, |prefix|, width) >= 1
    ensures var pad := StrPadLeft(IntToText(NextNumber(t, conds, |prefix|, width)), width, '0');
            MaxSuffix(Table(t.columns, t.rows + [row]), conds, |prefix|, width) == Some(pad)
  {
    SuffixesBelowNext(t, conds, |prefix|, width);
    var n := NextNumber(t, conds, |prefix|, width);
    var pad := StrPadLeft(Decimal(n), width, '0');
    var ids := MatchingIds(t.rows, conds);
    PadFits(n, width);
    ComposedSuffix(prefix, n, width);
    MatchingIdsAppend(t.rows, row, conds);
    SuffixesAppend(ids, row[IdColumn], |prefix|, width);
    MaxAfterAppend(Suffixes(ids, |prefix|, width), pad, width);
  }

  /** On one table: appending a row that carries the composed id for the
      next number moves the next number on by one. */
  lemma NextAfterInsert(t: Table, conds: seq<Condition>, prefix: string, width: nat, row: Row)
    requires width >= 1
    requires FixedWidthIds(MatchingIds(t.rows, conds), |prefix|, width)
    requires NextNumber(t, conds, |prefix|, width) < Pow10(width)
    requires Matches(row, conds) && IdColumn in row
    requires row[IdColumn] == Compose(prefix, NextNumber(t, conds, |prefix|, width), width)
    ensures NextNumber(t, conds, |prefix|, width) >= 1
    ensures NextNumber(Table(t.columns, t.rows + [row]), conds, |prefix|, width)
            == NextNumber(t, conds, |prefix|, width) + 1
  {
    var n := NextNumber(t, conds, |prefix|, width);
    var t' := Table(t.columns, t.rows + [row]);
    MaxAfterInsert(t, conds, prefix, width, row);
    assert Count(t', conds) > 0 by {
      MatchingIdsAppend(t.rows, row, conds);
    }
    PadFits(n, width);
  }

  /** On one table: appending a row whose id has `width` digits at
      `offset` keeps the ids fixed-width. */
  lemma FixedWidthAfterInsert(t: Table, conds: seq<Condition>, offset: nat, width: nat, row: Row)
    requires FixedWidthIds(MatchingIds(t.rows, conds), offset, width)
    requires IdColumn in row && DigitsAt(row[IdColumn], offset, width)
    ensures FixedWidthIds(MatchingIds(t.rows + [row], conds), offset, width)
  {
    MatchingIdsAppend(t.rows, row, conds);
    FixedWidthAppend(MatchingIds(t.rows, conds), row[IdColumn], Matches(row, conds), offset, width);
  }

  /** On one table: appending a row that carries a composed id whose number
      fits the width keeps the ids fixed-width. */
  lemma FixedWidthAfterComposedInsert(t: Table, conds: seq<Condition>, prefix: string, width: nat, n: nat, row: Row)
    requires width >= 1 && n < Pow10(width)
    requires FixedWidthIds(MatchingIds(t.rows, conds), |prefix|, width)
    requires IdColumn in row && row[IdColumn] == Compose(prefix, n, width)
    ensures FixedWidthIds(MatchingIds(t.rows + [row], conds), |prefix|, width)
  {
    ComposedDigits(prefix, n, width);
    FixedWidthAfterInsert(t, conds, |prefix|, width, row);
  }

  /** Inserting the generated id (in a row the WHERE clause selects) and
      generating again yields the numerically next id, provided every counted
      id carries a fixed-width number at the prefix's offset and the number
      still fits the width. The ids stay fixed-width, so this can be repeated.
      It rests on LexOrderIsNumeric: string `MAX` is numeric `MAX` here. The
      prefix is taken to be ASCII, so that `strlen` (bytes) and `SUBSTR`
      (characters) measure it alike. */
  lemma SequentialIncrement(c: Config, db: Database, row: Row)
    requires Valid(c) && QueryValid(db, TableName(c), Conditions(Entries(c)))
    requires IsAscii(PrefixText(c))
    requires IdWidth(c) >= 1
    requires FixedWidthIds(MatchingIds(db[TableName(c)].rows, Conditions(Entries(c))), |PrefixText(c)|, IdWidth(c))
    requires NextNumber(db[TableName(c)], Conditions(Entries(c)), |PrefixText(c)|, IdWidth(c)) < Pow10(IdWidth(c))
    requires Matches(row, Conditions(Entries(c)))
    requires IdColumn in row && Success(row[IdColumn]) == GenerateOutcome(c, db).result
    ensures var table, conds, p, w := TableName(c), Conditions(Entries(c)), PrefixText(c), IdWidth(c);
            var n := NextNumber(db[table], conds, |p|, w);
            var db' := Insert(db, table, row);
            && NextNumber(db'[table], conds, |p|, w) == n + 1
            && GenerateOutcome(c, db').result == Success(Compose(p, NextNumber(db'[table], conds, |p|, w), w))
            && FixedWidthIds(MatchingIds(db'[table].rows, conds), |p|, w)
  {
    var table, conds, p, w := TableName(c), Conditions(Entries(c)), PrefixText(c), IdWidth(c);
    StrLenAscii(p);
    GeneratedId(c, db);
    NextAfterInsert(db[table], conds, p, w, row);
    FixedWidthAfterComposedInsert(db[table], conds, p, w, NextNumber(db[table], conds, |p|, w), row);
    var db' := Insert(db, table, row);
    assert QueryValid(db', table, conds);
    GeneratedId(c, db');
  }

  // ---------------------------------------------------------------------
  // What is not read

  /** `field` and `reset_on_prefix_change` do not change anything. */
  lemma FieldAndResetIgnored(c: Config, db: Database, field: Option<Scalar>, reset: Option<bool>)
    ensures GenerateOutcome(c.(field := field, resetOnPrefixChange := reset), db) == GenerateOutcome(c, db)
  {
    var c' := c.(field := field, resetOnPrefixChange := reset);
    assert Validate(c') == Validate(c);
    assert Entries(c') == Entries(c);
    if Valid(c) {
      assert TableName(c') == TableName(c) && PrefixText(c') == PrefixText(c) && IdWidth(c') == IdWidth(c);
    }
  }

  /** The sequence is global: with the same table, `where`, prefix length in
      bytes and total length, a different prefix continues from the same
      number. */
  lemma PrefixChangeContinues(c1: Config, c2: Config, db: Database)
    requires Valid(c1) && Valid(c2)
    requires c1.table == c2.table && c1.length == c2.length && c1.where == c2.where
    requires StrLen(PrefixText(c1)) == StrLen(PrefixText(c2))
    requires GenerateOutcome(c1, db).result.Success?
    ensures var id1 := GenerateOutcome(c1, db).result.value;
            GenerateOutcome(c2, db).result == Success(PrefixText(c2) + id1[|PrefixText(c1)|..])
  {
    var p1, p2 := PrefixText(c1), PrefixText(c2);
    assert TableName(c1) == TableName(c2) && IdWidth(c1) == IdWidth(c2) && Entries(c1) == Entries(c2);
    var table, w, conds := TableName(c1), IdWidth(c1), Conditions(Entries(c1));
    var n := NextNumber(db[table], conds, StrLen(p1), w);
    var pad := StrPadLeft(IntToText(n), w, '0');
    assert GenerateOutcome(c1, db).result == Success(p1 + pad);
    assert GenerateOutcome(c2, db).result == Success(p2 + pad);
    assert (p1 + pad)[|p1|..] == pad;
  }
}
