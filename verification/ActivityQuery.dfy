/** The audit-log query builder: numbered placeholders in a text, values beside it. */
module ActivityQuery {
  import opened Text
  import opened Delimited
  import Decimal

  const SPACE: byte := 32
  const DOLLAR: byte := 36

  datatype Column = SubjectType | SubjectId | CauserId | LogName | BatchUuid

  function Name(c: Column): Bytes {
    match c
    case SubjectType => Ascii("subject_type")
    case SubjectId => Ascii("subject_id")
    case CauserId => Ascii("causer_id")
    case LogName => Ascii("log_name")
    case BatchUuid => Ascii("batch_uuid")
  }

  datatype Value = TextValue(text: Bytes) | UuidValue(uuid: int)

  /** One requested filter: the column holds exactly this value. */
  datatype Condition = Condition(column: Column, value: Value)

  function Placeholder(index: nat): Bytes {
    [DOLLAR] + Decimal.Digits(index)
  }

  /** `column = $index`. */
  function Clause(c: Column, index: nat): Bytes {
    Name(c) + ([SPACE] + ([EQUALS] + ([SPACE] + Placeholder(index))))
  }

  /** Clauses joined by ` AND `. */
  function JoinedAnd(clauses: seq<Bytes>): Bytes {
    if clauses == [] then []
    else if |clauses| == 1 then clauses[0]
    else clauses[0] + ([SPACE] + (Ascii("AND") + ([SPACE] + JoinedAnd(clauses[1..]))))
  }

  /** The clauses of conditions, numbered from `first`. */
  function Clauses(wanted: seq<Condition>, first: nat): (clauses: seq<Bytes>)
    ensures |clauses| == |wanted|
  {
    if wanted == [] then [] else [Clause(wanted[0].column, first)] + Clauses(wanted[1..], first + 1)
  }

  function ValuesOf(wanted: seq<Condition>): (values: seq<Value>)
    ensures |values| == |wanted|
    ensures forall i :: 0 <= i < |wanted| ==> values[i] == wanted[i].value
  {
    if wanted == [] then [] else [wanted[0].value] + ValuesOf(wanted[1..])
  }

  /** The text after WHERE. */
  function WhereText(wanted: seq<Condition>): Bytes {
    JoinedAnd(Clauses(wanted, 1))
  }

  lemma {:induction false} ClausesSnoc(wanted: seq<Condition>, c: Condition, first: nat)
    ensures Clauses(wanted + [c], first) == Clauses(wanted, first) + [Clause(c.column, first + |wanted|)]
    ensures ValuesOf(wanted + [c]) == ValuesOf(wanted) + [c.value]
  {
    hide Clause;
    if wanted == [] {
      assert wanted + [c] == [c];
    } else {
      assert (wanted + [c])[0] == wanted[0] && (wanted + [c])[1..] == wanted[1..] + [c];
      ClausesSnoc(wanted[1..], c, first + 1);
    }
  }

  datatype Statement = Statement(sql: Bytes, bindings: seq<Value>)

  class ActivityQuery {
    var table: Bytes
    var filters: seq<Bytes>
    var bindings: seq<Value>
    var limit: Option<nat>
    /** The filters asked for so far, in order. */
    ghost var wanted: seq<Condition>

    ghost predicate Valid()
      reads this
    {
      filters == Clauses(wanted, 1) && bindings == ValuesOf(wanted)
    }

    constructor ()
      ensures Valid() && wanted == [] && table == Ascii("audit_log") && limit == None
    {
      table, filters, bindings, limit := Ascii("audit_log"), [], [], None;
      wanted := [];
    }

    method WithTable(table: Bytes)
      requires Valid()
      modifies this`table
      ensures this.table == table
    {
      this.table := table;
    }

    /** Bind a value and filter on it under the next number. */
    method Filter(c: Column, value: Value)
      requires Valid()
      modifies this`filters, this`bindings, this`wanted
      ensures Valid() && wanted == old(wanted) + [Condition(c, value)]
    {
      ClausesSnoc(wanted, Condition(c, value), 1);
      bindings := bindings + [value];
      var index := |bindings|;
      filters := filters + [Clause(c, index)];
      wanted := wanted + [Condition(c, value)];
    }

    method ForSubject(subjectType: Bytes, subjectId: int)
      requires Valid()
      modifies this`filters, this`bindings, this`wanted
      ensures Valid()
      ensures wanted == old(wanted) + [Condition(SubjectType, TextValue(subjectType)), Condition(SubjectId, UuidValue(subjectId))]
    {
      Filter(SubjectType, TextValue(subjectType));
      Filter(SubjectId, UuidValue(subjectId));
    }

    method CausedBy(causerId: Bytes)
      requires Valid()
      modifies this`filters, this`bindings, this`wanted
      ensures Valid() && wanted == old(wanted) + [Condition(CauserId, TextValue(causerId))]
    {
      Filter(CauserId, TextValue(causerId));
    }

    method InLog(logName: Bytes)
      requires Valid()
      modifies this`filters, this`bindings, this`wanted
      ensures Valid() && wanted == old(wanted) + [Condition(LogName, TextValue(logName))]
    {
      Filter(LogName, TextValue(logName));
    }

    method ForBatch(batchUuid: int)
      requires Valid()
      modifies this`filters, this`bindings, this`wanted
      ensures Valid() && wanted == old(wanted) + [Condition(BatchUuid, UuidValue(batchUuid))]
    {
      Filter(BatchUuid, UuidValue(batchUuid));
    }

    method Limit(limit: nat)
      requires Valid()
      modifies this`limit
      ensures this.limit == Some(limit)
    {
      this.limit := Some(limit);
    }

    /** Render the statement. */
    method Get() returns (s: Statement)
      requires Valid()
      ensures s == Statement(Rendered(table, wanted, limit), ValuesOf(wanted))
    {
      hide Ascii, JoinedAnd;
      var sql := Ascii("SELECT * FROM ") + table;
      ghost var select := sql;
      if filters != [] {
        sql := sql + Ascii(" WHERE ");
        sql := sql + JoinedAnd(filters);
        Reassociate(select, Ascii(" WHERE "), JoinedAnd(filters));
      }
      sql := sql + Ascii(" ORDER BY created_at DESC");
      if limit.Some? {
        sql := sql + (Ascii(" LIMIT ") + Decimal.Digits(limit.value));
      }
      s := Statement(sql, bindings);
    }
  }

  function Rendered(table: Bytes, wanted: seq<Condition>, limit: Option<nat>): Bytes {
    Ascii("SELECT * FROM ") + table
      + (if wanted == [] then [] else Ascii(" WHERE ") + WhereText(wanted))
      + Ascii(" ORDER BY created_at DESC")
      + (match limit case Some(n) => Ascii(" LIMIT ") + Decimal.Digits(n) case None => [])
  }

  // ---------- Reading the statement back ----------

  /** A comparison as read: a column name and a placeholder number. */
  type Comparison = (Bytes, nat)

  /** A statement as read: `SELECT * FROM` a table, `WHERE` all comparisons hold if there are any,
      newest first, with at most so many rows. */
  datatype Reading = Reading(table: Bytes, comparisons: seq<Comparison>, limit: Option<nat>)

  function ReadNumber(word: Bytes): Option<nat> {
    if word != [] && Decimal.AllDigits(word) then Some(Decimal.Magnitude(word)) else None
  }

  function ReadPlaceholder(word: Bytes): Option<nat> {
    if word != [] && word[0] == DOLLAR then ReadNumber(word[1..]) else None
  }

  /** `name = $n`, as often as ` AND ` follows; and the words after that. */
  function ReadComparisons(words: seq<Bytes>): Option<(seq<Comparison>, seq<Bytes>)>
    decreases |words|
  {
    if |words| < 3 || words[1] != [EQUALS] then None
    else
      match ReadPlaceholder(words[2])
      case None => None
      case Some(n) =>
        if |words| == 3 || words[3] != Ascii("AND") then Some(([(words[0], n)], words[3..]))
        else
          match ReadComparisons(words[4..])
          case Some((rest, after)) => Some(([(words[0], n)] + rest, after))
          case None => None
  }

  function ReadLimit(words: seq<Bytes>): Option<Option<nat>> {
    if words == [] then Some(None)
    else if |words| == 2 && words[0] == Ascii("LIMIT") && ReadNumber(words[1]).Some? then Some(ReadNumber(words[1]))
    else None
  }

  const SELECT: seq<Bytes> := [Ascii("SELECT"), Ascii("*"), Ascii("FROM")]
  const ORDER: seq<Bytes> := [Ascii("ORDER"), Ascii("BY"), Ascii("created_at"), Ascii("DESC")]

  function ReadOrder(table: Bytes, comparisons: seq<Comparison>, words: seq<Bytes>): Option<Reading> {
    if |words| < 4 || words[..4] != ORDER then None
    else
      match ReadLimit(words[4..])
      case Some(limit) => Some(Reading(table, comparisons, limit))
      case None => None
  }

  function ReadWords(words: seq<Bytes>): Option<Reading> {
    if |words| < 5 || words[..3] != SELECT then None
    else if words[4] != Ascii("WHERE") then ReadOrder(words[3], [], words[4..])
    else
      match ReadComparisons(words[5..])
      case Some((comparisons, after)) => ReadOrder(words[3], comparisons, after)
      case None => None
  }

  function ReadStatement(sql: Bytes): Option<Reading> {
    ReadWords(Split(sql, SPACE))
  }

  /** A row, by column name; a null column is absent. */
  type Row = map<Bytes, Value>

  /** A comparison holds of a row when the column has the bound value; a null has none. */
  predicate Holds(c: Comparison, bindings: seq<Value>, row: Row) {
    1 <= c.1 <= |bindings| && c.0 in row && row[c.0] == bindings[c.1 - 1]
  }

  /** Whether a database that reads the statement so selects a row of the table. */
  predicate Selects(s: Statement, row: Row) {
    match ReadStatement(s.sql)
    case Some(r) => forall i :: 0 <= i < |r.comparisons| ==> Holds(r.comparisons[i], s.bindings, row)
    case None => false
  }

  // ---------- The words of a statement ----------

  function ConditionWords(wanted: seq<Condition>, first: nat): seq<Bytes> {
    if wanted == [] then []
    else
      [Name(wanted[0].column), [EQUALS], Placeholder(first)]
        + if |wanted| == 1 then [] else [Ascii("AND")] + ConditionWords(wanted[1..], first + 1)
  }

  function LimitWords(limit: Option<nat>): seq<Bytes> {
    match limit
    case Some(n) => [Ascii("LIMIT"), Decimal.Digits(n)]
    case None => []
  }

  function WhereWords(wanted: seq<Condition>): seq<Bytes> {
    if wanted == [] then [] else [Ascii("WHERE")] + ConditionWords(wanted, 1)
  }

  /** `names` are the words of the table name. */
  function Words(names: seq<Bytes>, wanted: seq<Condition>, limit: Option<nat>): seq<Bytes> {
    SELECT + names + WhereWords(wanted) + ORDER + LimitWords(limit)
  }

  /** Text of words, word by word. */
  lemma AsciiWord(word: string, rest: string)
    requires IsAsciiText(word) && IsAsciiText(rest)
    ensures Ascii(word + (" " + rest)) == Ascii(word) + ([SPACE] + Ascii(rest))
  {
  }

  predicate IsAsciiText(s: string) {
    forall i :: 0 <= i < |s| ==> s[i] < 128 as char
  }

  lemma {:induction false} JoinedConcat(a: seq<Bytes>, b: seq<Bytes>, sep: byte)
    requires a != [] && b != []
    ensures Joined(a + b, sep) == Joined(a, sep) + ([sep] + Joined(b, sep))
  {
    if |a| == 1 {
      assert (a + b)[1..] == b;
      Reassociate(a[0], [sep], Joined(b, sep));
    } else {
      assert (a + b)[1..] == a[1..] + b;
      JoinedConcat(a[1..], b, sep);
      Reassociate(a[0] + [sep], Joined(a[1..], sep), [sep] + Joined(b, sep));
    }
  }

  lemma JoinedTwo(a: Bytes, b: Bytes, sep: byte)
    ensures Joined([a, b], sep) == a + ([sep] + b)
  {
    assert [a, b][1..] == [b];
    Reassociate(a, [sep], b);
  }

  lemma JoinedCons(a: Bytes, rest: seq<Bytes>, sep: byte)
    requires rest != []
    ensures Joined([a] + rest, sep) == a + ([sep] + Joined(rest, sep))
  {
    assert ([a] + rest)[1..] == rest;
    Reassociate(a, [sep], Joined(rest, sep));
  }

  lemma ClauseIsJoined(c: Column, index: nat)
    ensures Joined([Name(c), [EQUALS], Placeholder(index)], SPACE) == Clause(c, index)
  {
    hide Name, Placeholder;
    JoinedTwo([EQUALS], Placeholder(index), SPACE);
    JoinedCons(Name(c), [[EQUALS], Placeholder(index)], SPACE);
    assert [Name(c)] + [[EQUALS], Placeholder(index)] == [Name(c), [EQUALS], Placeholder(index)];
  }

  lemma {:induction false} ConditionsAreJoined(wanted: seq<Condition>, first: nat)
    requires wanted != []
    ensures JoinedAnd(Clauses(wanted, first)) == Joined(ConditionWords(wanted, first), SPACE)
    decreases |wanted|
  {
    hide Name, Placeholder, Clause, Ascii;
    var three := [Name(wanted[0].column), [EQUALS], Placeholder(first)];
    var clauses := Clauses(wanted, first);
    ClauseIsJoined(wanted[0].column, first);
    if |wanted| == 1 {
      assert ConditionWords(wanted, first) == three;
    } else {
      var more := ConditionWords(wanted[1..], first + 1);
      assert clauses[1..] == Clauses(wanted[1..], first + 1);
      ConditionsAreJoined(wanted[1..], first + 1);
      JoinedCons(Ascii("AND"), more, SPACE);
      JoinedConcat(three, [Ascii("AND")] + more, SPACE);
      assert ConditionWords(wanted, first) == three + ([Ascii("AND")] + more);
    }
  }

  /** The fixed words, as the program writes them. */
  lemma FixedText(table: Bytes)
    ensures Ascii("SELECT * FROM ") + table == Joined(SELECT + [table], SPACE)
    ensures Ascii(" WHERE ") == [SPACE] + (Ascii("WHERE") + [SPACE])
    ensures Ascii(" ORDER BY created_at DESC") == [SPACE] + Joined(ORDER, SPACE)
    ensures Ascii(" LIMIT ") == [SPACE] + (Ascii("LIMIT") + [SPACE])
  {
    hide Ascii, Joined;
    var select, star, from := Ascii("SELECT"), Ascii("*"), Ascii("FROM");
    JoinedTwo(from, table, SPACE);
    JoinedCons(star, [from, table], SPACE);
    JoinedCons(select, [star, from, table], SPACE);
    assert [star] + [from, table] == [star, from, table];
    assert [select] + [star, from, table] == SELECT + [table];
    SelectText();
    assert Ascii("SELECT * FROM ") + table == select + ([SPACE] + (star + ([SPACE] + (from + ([SPACE] + table)))));
    OrderText();
    KeywordText();
  }

  lemma SelectText()
    ensures Ascii("SELECT * FROM ") == Ascii("SELECT") + ([SPACE] + (Ascii("*") + ([SPACE] + (Ascii("FROM") + [SPACE]))))
  {
    hide Ascii;
    AsciiWord("SELECT", "* FROM ");
    AsciiWord("*", "FROM ");
    AsciiWord("FROM", "");
    AsciiEmpty();
    assert "SELECT" + (" " + "* FROM ") == "SELECT * FROM ";
    assert "*" + (" " + "FROM ") == "* FROM ";
    assert "FROM" + (" " + "") == "FROM ";
    assert [SPACE] + [] == [SPACE];
  }

  lemma AsciiEmpty()
    ensures Ascii("") == []
  {
  }

  lemma KeywordText()
    ensures Ascii(" WHERE ") == [SPACE] + (Ascii("WHERE") + [SPACE])
    ensures Ascii(" LIMIT ") == [SPACE] + (Ascii("LIMIT") + [SPACE])
  {
    hide Ascii;
    AsciiEmpty();
    AsciiWord("", "WHERE ");
    AsciiWord("WHERE", "");
    AsciiWord("", "LIMIT ");
    AsciiWord("LIMIT", "");
    assert "" + (" " + "WHERE ") == " WHERE " && "WHERE" + (" " + "") == "WHERE ";
    assert "" + (" " + "LIMIT ") == " LIMIT " && "LIMIT" + (" " + "") == "LIMIT ";
    assert [SPACE] + [] == [SPACE];
  }

  lemma OrderText()
    ensures Ascii(" ORDER BY created_at DESC") == [SPACE] + Joined(ORDER, SPACE)
  {
    var o, b, c, d := Ascii("ORDER"), Ascii("BY"), Ascii("created_at"), Ascii("DESC");
    OrderBytes();
    OrderByBytes();
    CreatedBytes();
    hide Ascii, Joined;
    JoinedTwo(c, d, SPACE);
    JoinedCons(b, [c, d], SPACE);
    JoinedCons(o, [b, c, d], SPACE);
    assert [b] + [c, d] == [b, c, d] && [o] + [b, c, d] == ORDER;
    Reassociate([SPACE], o + ([SPACE] + b), [SPACE] + (c + ([SPACE] + d)));
    Reassociate(o, [SPACE] + b, [SPACE] + (c + ([SPACE] + d)));
    Reassociate([SPACE], b, [SPACE] + (c + ([SPACE] + d)));
  }

  lemma OrderBytes()
    ensures Ascii(" ORDER BY created_at DESC") == Ascii(" ORDER BY") + Ascii(" created_at DESC")
  {
  }

  lemma OrderByBytes()
    ensures Ascii(" ORDER BY") == [SPACE] + (Ascii("ORDER") + ([SPACE] + Ascii("BY")))
  {
  }

  lemma CreatedBytes()
    ensures Ascii(" created_at DESC") == [SPACE] + (Ascii("created_at") + ([SPACE] + Ascii("DESC")))
  {
  }

  /** The statement is its words, with a space between each two. */
  lemma StatementIsJoined(names: seq<Bytes>, wanted: seq<Condition>, limit: Option<nat>)
    requires names != []
    ensures Rendered(Joined(names, SPACE), wanted, limit) == Joined(Words(names, wanted, limit), SPACE)
  {
    hide Ascii, Joined, Decimal.Digits;
    var table, select := Joined(names, SPACE), SELECT + names;
    SelectIsJoined(names);
    FixedText(table);
    WhereIsJoined(wanted, select);
    JoinedConcat(select + WhereWords(wanted), ORDER, SPACE);
    LimitIsJoined(limit, select + WhereWords(wanted) + ORDER);
  }

  lemma SelectIsJoined(names: seq<Bytes>)
    requires names != []
    ensures Ascii("SELECT * FROM ") + Joined(names, SPACE) == Joined(SELECT + names, SPACE)
  {
    hide Ascii, Joined;
    var table := Joined(names, SPACE);
    FixedText(table);
    JoinedConcat(SELECT, names, SPACE);
    JoinedConcat(SELECT, [table], SPACE);
    JoinedOne(table);
  }

  lemma JoinedOne(word: Bytes)
    ensures Joined([word], SPACE) == word
  {
  }

  lemma WhereIsJoined(wanted: seq<Condition>, before: seq<Bytes>)
    requires before != []
    ensures Joined(before, SPACE) + (if wanted == [] then [] else Ascii(" WHERE ") + WhereText(wanted))
         == Joined(before + WhereWords(wanted), SPACE)
  {
    hide Ascii, Joined, ConditionWords;
    if wanted == [] {
      assert before + [] == before;
    } else {
      var words, text := ConditionWords(wanted, 1), WhereText(wanted);
      FixedText([]);
      ConditionsAreJoined(wanted, 1);
      assert words != [] by { ConditionsHaveWords(wanted); }
      JoinedCons(Ascii("WHERE"), words, SPACE);
      JoinedConcat(before, [Ascii("WHERE")] + words, SPACE);
      Reassociate([SPACE], Ascii("WHERE") + [SPACE], text);
      Reassociate(Ascii("WHERE"), [SPACE], text);
    }
  }

  lemma ConditionsHaveWords(wanted: seq<Condition>)
    requires wanted != []
    ensures |ConditionWords(wanted, 1)| >= 3
  {
  }

  lemma LimitIsJoined(limit: Option<nat>, before: seq<Bytes>)
    requires before != []
    ensures Joined(before, SPACE) + (match limit case Some(n) => Ascii(" LIMIT ") + Decimal.Digits(n) case None => [])
         == Joined(before + LimitWords(limit), SPACE)
  {
    hide Ascii, Joined, Decimal.Digits;
    match limit
    case None =>
      assert before + [] == before;
    case Some(n) =>
      FixedText([]);
      JoinedTwo(Ascii("LIMIT"), Decimal.Digits(n), SPACE);
      JoinedConcat(before, LimitWords(limit), SPACE);
      Reassociate([SPACE], Ascii("LIMIT") + [SPACE], Decimal.Digits(n));
      Reassociate(Ascii("LIMIT"), [SPACE], Decimal.Digits(n));
  }

  ghost predicate Spaceless(words: seq<Bytes>) {
    forall i :: 0 <= i < |words| ==> Free(words[i], SPACE)
  }

  lemma SpacelessConcat(a: seq<Bytes>, b: seq<Bytes>)
    requires Spaceless(a) && Spaceless(b)
    ensures Spaceless(a + b)
  {
  }

  lemma NumberReads(n: nat)
    ensures Free(Decimal.Digits(n), SPACE) && ReadNumber(Decimal.Digits(n)) == Some(n)
    ensures Free(Placeholder(n), SPACE) && ReadPlaceholder(Placeholder(n)) == Some(n)
  {
    Decimal.DigitsReadBack(n);
    assert Placeholder(n)[1..] == Decimal.Digits(n);
  }

  predicate SpacelessText(s: string) {
    forall i :: 0 <= i < |s| ==> s[i] < 128 as char && s[i] != ' '
  }

  lemma AsciiIsSpaceless(s: string)
    requires SpacelessText(s)
    ensures Free(Ascii(s), SPACE)
  {
  }

  lemma NameIsSpaceless(c: Column)
    ensures Free(Name(c), SPACE)
  {
    hide Ascii;
    AsciiIsSpaceless(match c
      case SubjectType => "subject_type"
      case SubjectId => "subject_id"
      case CauserId => "causer_id"
      case LogName => "log_name"
      case BatchUuid => "batch_uuid");
  }

  lemma KeywordsSpaceless()
    ensures Spaceless(SELECT) && Spaceless(ORDER)
    ensures Spaceless([Ascii("WHERE")]) && Spaceless([Ascii("LIMIT")]) && Spaceless([Ascii("AND")]) && Free([EQUALS], SPACE)
  {
    hide Ascii;
    AsciiIsSpaceless("SELECT");
    AsciiIsSpaceless("*");
    AsciiIsSpaceless("FROM");
    AsciiIsSpaceless("WHERE");
    AsciiIsSpaceless("AND");
    AsciiIsSpaceless("ORDER");
    AsciiIsSpaceless("BY");
    AsciiIsSpaceless("created_at");
    AsciiIsSpaceless("DESC");
    AsciiIsSpaceless("LIMIT");
  }

  lemma {:induction false} ConditionsSpaceless(wanted: seq<Condition>, first: nat)
    ensures Spaceless(ConditionWords(wanted, first))
    decreases |wanted|
  {
    if wanted != [] {
      hide Name, Placeholder, Ascii, Free;
      var c, more := wanted[0].column, ConditionWords(wanted[1..], first + 1);
      NameIsSpaceless(c);
      KeywordsSpaceless();
      NumberReads(first);
      ConditionsSpaceless(wanted[1..], first + 1);
      var three := [Name(c), [EQUALS], Placeholder(first)];
      assert Spaceless(three);
      if |wanted| == 1 {
        assert ConditionWords(wanted, first) == three;
      } else {
        SpacelessConcat([Ascii("AND")], more);
        SpacelessConcat(three, [Ascii("AND")] + more);
        assert ConditionWords(wanted, first) == three + ([Ascii("AND")] + more);
      }
    }
  }

  lemma WordsSpaceless(names: seq<Bytes>, wanted: seq<Condition>, limit: Option<nat>)
    requires Spaceless(names)
    ensures Spaceless(Words(names, wanted, limit))
  {
    hide Ascii, Free, Decimal.Digits, Spaceless;
    KeywordsSpaceless();
    ConditionsSpaceless(wanted, 1);
    WhereSpaceless(wanted);
    LimitSpaceless(limit);
    SpacelessConcat(SELECT, names);
    SpacelessConcat(SELECT + names, WhereWords(wanted));
    SpacelessConcat(SELECT + names + WhereWords(wanted), ORDER);
    SpacelessConcat(SELECT + names + WhereWords(wanted) + ORDER, LimitWords(limit));
  }

  lemma WhereSpaceless(wanted: seq<Condition>)
    ensures Spaceless(WhereWords(wanted))
  {
    hide Ascii, Free;
    KeywordsSpaceless();
    ConditionsSpaceless(wanted, 1);
    SpacelessConcat([Ascii("WHERE")], ConditionWords(wanted, 1));
  }

  lemma LimitSpaceless(limit: Option<nat>)
    ensures Spaceless(LimitWords(limit))
  {
    hide Ascii, Free, Decimal.Digits;
    KeywordsSpaceless();
    if limit.Some? {
      NumberReads(limit.value);
      assert Free([Ascii("LIMIT")][0], SPACE);
    }
  }

  /** The statement splits into exactly the words it was made of. */
  lemma StatementSplits(table: Bytes, wanted: seq<Condition>, limit: Option<nat>)
    ensures Split(Rendered(table, wanted, limit), SPACE) == Words(Split(table, SPACE), wanted, limit)
  {
    hide Rendered, Words, Split, Joined, Free;
    var names := Split(table, SPACE);
    JoinedSplit(table, SPACE);
    StatementIsJoined(names, wanted, limit);
    WordsSpaceless(names, wanted, limit);
    assert Words(names, wanted, limit) != [] by { HasWords(names, wanted, limit); }
    SplitJoined(Words(names, wanted, limit), SPACE);
  }

  lemma HasWords(names: seq<Bytes>, wanted: seq<Condition>, limit: Option<nat>)
    ensures |Words(names, wanted, limit)| >= 7
  {
  }

  // ---------- What the words say ----------

  function Comparisons(wanted: seq<Condition>, first: nat): (cs: seq<Comparison>)
    ensures |cs| == |wanted|
    ensures forall i :: 0 <= i < |wanted| ==> cs[i] == (Name(wanted[i].column), first + i)
  {
    if wanted == [] then [] else [(Name(wanted[0].column), first)] + Comparisons(wanted[1..], first + 1)
  }

  /** The comparisons read off a condition are those wanted, numbered in binding order. */
  lemma {:induction false} ConditionsRead(wanted: seq<Condition>, first: nat, after: seq<Bytes>)
    requires wanted != [] && (after == [] || after[0] != Ascii("AND"))
    ensures ReadComparisons(ConditionWords(wanted, first) + after) == Some((Comparisons(wanted, first), after))
    decreases |wanted|
  {
    hide Name, Placeholder, ReadPlaceholder, Ascii;
    var name, and := Name(wanted[0].column), Ascii("AND");
    NumberReads(first);
    var three := [name, [EQUALS], Placeholder(first)];
    if |wanted| == 1 {
      assert ConditionWords(wanted, first) == three && Comparisons(wanted, first) == [(name, first)];
      FirstReads(three, after, first);
    } else {
      hide ReadComparisons;
      var more := ConditionWords(wanted[1..], first + 1) + after;
      ConditionsRead(wanted[1..], first + 1, after);
      assert ConditionWords(wanted, first) + after == three + ([and] + more);
      FirstReads(three, [and] + more, first);
      assert ([and] + more)[1..] == more;
    }
  }

  /** Reading the first of the comparisons. */
  lemma FirstReads(three: seq<Bytes>, after: seq<Bytes>, n: nat)
    requires |three| == 3 && three[1] == [EQUALS] && ReadPlaceholder(three[2]) == Some(n)
    ensures ReadComparisons(three + after) ==
      if after == [] || after[0] != Ascii("AND") then Some(([(three[0], n)], after))
      else
        match ReadComparisons(after[1..])
        case Some((rest, last)) => Some(([(three[0], n)] + rest, last))
        case None => None
  {
    hide ReadPlaceholder, Ascii;
    var words := three + after;
    assert words[3..] == after;
    if after != [] {
      assert words[4..] == after[1..];
    }
  }

  lemma KeywordsDiffer()
    ensures Ascii("ORDER") != Ascii("WHERE") && Ascii("ORDER") != Ascii("AND")
  {
    assert Ascii("ORDER")[0] == 79 && Ascii("WHERE")[0] == 87 && Ascii("AND")[0] == 65;
  }

  lemma OrderReads(table: Bytes, comparisons: seq<Comparison>, limit: Option<nat>)
    ensures ReadOrder(table, comparisons, ORDER + LimitWords(limit)) == Some(Reading(table, comparisons, limit))
  {
    hide Ascii, Decimal.Digits, ReadNumber;
    var words := ORDER + LimitWords(limit);
    assert words[..4] == ORDER && words[4..] == LimitWords(limit);
    if limit.Some? {
      NumberReads(limit.value);
    }
  }

  /** Words with nothing to filter on, and words with a condition. */
  lemma UnfilteredReads(table: Bytes, order: seq<Bytes>)
    requires |order| > 0 && order[0] != Ascii("WHERE")
    ensures ReadWords(SELECT + [table] + order) == ReadOrder(table, [], order)
  {
    hide Ascii, ReadOrder, ReadComparisons;
    var words := SELECT + [table] + order;
    assert words[..3] == SELECT && words[3] == table && words[4..] == order;
  }

  lemma FilteredReads(table: Bytes, condition: seq<Bytes>, comparisons: seq<Comparison>, order: seq<Bytes>)
    requires ReadComparisons(condition + order) == Some((comparisons, order))
    ensures ReadWords(SELECT + [table] + ([Ascii("WHERE")] + condition) + order) == ReadOrder(table, comparisons, order)
  {
    hide Ascii, ReadOrder, ReadComparisons;
    var words := SELECT + [table] + ([Ascii("WHERE")] + condition) + order;
    assert words[..3] == SELECT && words[3] == table && words[4] == Ascii("WHERE") && words[5..] == condition + order;
  }

  /** Over a table name of one word, the words say what was asked for. */
  lemma WordsRead(table: Bytes, wanted: seq<Condition>, limit: Option<nat>)
    ensures ReadWords(Words([table], wanted, limit)) == Some(Reading(table, Comparisons(wanted, 1), limit))
  {
    hide Ascii, ConditionWords, LimitWords, ReadOrder, ReadComparisons, ReadWords, Comparisons;
    KeywordsDiffer();
    var order := ORDER + LimitWords(limit);
    OrderReads(table, Comparisons(wanted, 1), limit);
    assert order[0] == Ascii("ORDER");
    if wanted == [] {
      assert SELECT + [table] + [] + ORDER + LimitWords(limit) == SELECT + [table] + order;
      UnfilteredReads(table, order);
      assert Comparisons(wanted, 1) == [];
    } else {
      var condition := ConditionWords(wanted, 1);
      ConditionsRead(wanted, 1, order);
      Reassociate(SELECT + [table] + ([Ascii("WHERE")] + condition), ORDER, LimitWords(limit));
      FilteredReads(table, condition, Comparisons(wanted, 1), order);
    }
  }

  lemma ReadTable(words: seq<Bytes>)
    ensures ReadWords(words).Some? ==> |words| > 3 && ReadWords(words).value.table == words[3]
  {
  }

  /** What `get` renders reads back as the table, the filters and the limit that were asked for, for
      every chain of builder calls, exactly when the table name holds no space. */
  lemma StatementReads(table: Bytes, wanted: seq<Condition>, limit: Option<nat>)
    ensures ReadStatement(Rendered(table, wanted, limit)) == Some(Reading(table, Comparisons(wanted, 1), limit))
       <==> Free(table, SPACE)
  {
    hide Ascii, Rendered, Split, ReadWords, Comparisons, Free, WhereWords, LimitWords;
    var names := Split(table, SPACE);
    StatementSplits(table, wanted, limit);
    JoinedSplit(table, SPACE);
    var words := Words(names, wanted, limit);
    assert words[3] == names[0];
    ReadTable(words);
    if |names| == 1 {
      assert names == [names[0]];
      JoinedOne(names[0]);
      WordsRead(table, wanted, limit);
    }
  }

  // ---------- Table names of several words ----------

  lemma OrderIsShort(table: Bytes, comparisons: seq<Comparison>, words: seq<Bytes>)
    ensures ReadOrder(table, comparisons, words).Some? ==> (|words| == 4 || |words| == 6) && words[..4] == ORDER
  {
    hide Ascii;
  }

  lemma NotAPlaceholder()
    ensures ReadPlaceholder(Ascii("WHERE")) == None && Ascii("WHERE") != [EQUALS] && Ascii("WHERE") != Ascii("AND")
  {
    assert Ascii("WHERE")[0] == 87 && Ascii("AND")[0] == 65;
  }

  /** No comparison reaches over a WHERE that a column name follows. */
  lemma {:induction false} WhereIsLeft(before: seq<Bytes>, condition: seq<Bytes>)
    requires condition != [] && condition[0] != [EQUALS]
    ensures var r := ReadComparisons(before + ([Ascii("WHERE")] + condition));
      r.Some? ==> |r.value.1| > |condition|
    decreases |before|
  {
    hide Ascii, ReadPlaceholder;
    NotAPlaceholder();
    var whole := Ascii("WHERE");
    var words := before + ([whole] + condition);
    assert |before| < 3 ==> words[|before|] == whole && words[|before| + 1] == condition[0];
    if |before| > 3 {
      assert words[4..] == before[4..] + ([whole] + condition);
      WhereIsLeft(before[4..], condition);
    } else if |before| == 3 {
      assert words[3] == whole;
    }
  }

  lemma NameIsNotEquals(c: Column)
    ensures Name(c) != [EQUALS]
  {
    assert |Name(c)| > 1;
  }

  /** Filters after a table name of several words are never read. */
  lemma FilteredIsUnread(names: seq<Bytes>, wanted: seq<Condition>, limit: Option<nat>)
    requires |names| > 1 && wanted != []
    ensures ReadWords(Words(names, wanted, limit)) == None
  {
    hide Ascii, ReadWords, LimitWords, ConditionWords;
    var condition := ConditionWords(wanted, 1) + (ORDER + LimitWords(limit));
    FirstIsName(wanted);
    assert |condition| >= 7 && condition[0] != [EQUALS];
    WhereIsUnread(names, condition);
    assert Words(names, wanted, limit) == SELECT + (names + ([Ascii("WHERE")] + condition));
  }

  lemma FirstIsName(wanted: seq<Condition>)
    requires wanted != []
    ensures |ConditionWords(wanted, 1)| >= 3 && ConditionWords(wanted, 1)[0] != [EQUALS]
  {
    NameIsNotEquals(wanted[0].column);
  }

  lemma WhereIsUnread(names: seq<Bytes>, condition: seq<Bytes>)
    requires |names| > 1 && |condition| >= 7 && condition[0] != [EQUALS]
    ensures ReadWords(SELECT + (names + ([Ascii("WHERE")] + condition))) == None
  {
    hide Ascii, ReadComparisons, ReadOrder;
    var all := names + ([Ascii("WHERE")] + condition);
    var words := SELECT + all;
    assert words[..3] == SELECT && words[3] == all[0] && words[4] == all[1];
    assert words[4..] == all[1..] && words[5..] == all[2..];
    if all[1] == Ascii("WHERE") {
      assert all[2..] == names[2..] + ([Ascii("WHERE")] + condition);
      WhereIsLeft(names[2..], condition);
      var r := ReadComparisons(all[2..]);
      if r.Some? {
        OrderIsShort(all[0], r.value.0, r.value.1);
      }
    } else {
      OrderIsShort(all[0], [], all[1..]);
    }
  }

  lemma ReadSome(words: seq<Bytes>)
    ensures ReadComparisons(words).Some? ==> ReadComparisons(words).value.0 != []
  {
    hide Ascii, ReadPlaceholder;
  }

  /** Without filters, such a name can at best pass for one with filters of its own. */
  lemma UnfilteredIsMisread(names: seq<Bytes>, limit: Option<nat>)
    requires |names| > 1
    ensures var r := ReadWords(Words(names, [], limit));
      r.Some? ==> r.value.comparisons != []
  {
    hide Ascii, ReadComparisons, ReadOrder;
    var words := Words(names, [], limit);
    assert words == SELECT + (names + (ORDER + LimitWords(limit)));
    assert words[..3] == SELECT && words[3] == names[0] && words[4] == names[1];
    ReadSome(words[5..]);
    if names[1] == Ascii("WHERE") {
      var r := ReadComparisons(words[5..]);
      if r.Some? {
        OrderKeepsComparisons(names[0], r.value.0, r.value.1);
      }
    } else {
      var left := words[4..];
      OrderIsShort(names[0], [], left);
      assert left == names[1..] + (ORDER + LimitWords(limit));
      CreatedIsNotOrder();
      assert |names| == 3 ==> left[2] == ORDER[0];
    }
  }

  lemma OrderKeepsComparisons(table: Bytes, comparisons: seq<Comparison>, words: seq<Bytes>)
    ensures var r := ReadOrder(table, comparisons, words);
      r.Some? ==> r.value.comparisons == comparisons
  {
    hide Ascii;
  }

  lemma CreatedIsNotOrder()
    ensures ORDER[0] != ORDER[2]
  {
    assert ORDER[0][0] == 79 && ORDER[2][0] == 99;
  }

  /** A table name of several words: no row is selected, whatever the filters. */
  lemma SpacedSelectsNothing(table: Bytes, wanted: seq<Condition>, limit: Option<nat>, row: Row)
    requires !Free(table, SPACE)
    ensures !Selects(Statement(Rendered(table, wanted, limit), ValuesOf(wanted)), row)
  {
    hide Rendered, Split, Free, ReadWords, Words;
    var names := Split(table, SPACE);
    JoinedSplit(table, SPACE);
    StatementSplits(table, wanted, limit);
    if wanted == [] {
      UnfilteredIsMisread(names, limit);
      var r := ReadWords(Words(names, wanted, limit));
      assert r.Some? ==> !Holds(r.value.comparisons[0], ValuesOf(wanted), row);
    } else {
      FilteredIsUnread(names, wanted, limit);
    }
  }

  // ---------- What is selected ----------

  /** The row holds the value in the column that is meant. */
  predicate Meets(c: Condition, row: Row) {
    match c.column
    case SubjectType => Ascii("subject_type") in row && row[Ascii("subject_type")] == c.value
    case SubjectId => Ascii("subject_id") in row && row[Ascii("subject_id")] == c.value
    case CauserId => Ascii("causer_id") in row && row[Ascii("causer_id")] == c.value
    case LogName => Ascii("log_name") in row && row[Ascii("log_name")] == c.value
    case BatchUuid => Ascii("batch_uuid") in row && row[Ascii("batch_uuid")] == c.value
  }

  lemma MeetsByName(c: Condition, row: Row)
    ensures Meets(c, row) <==> Name(c.column) in row && row[Name(c.column)] == c.value
  {
  }

  lemma ComparisonMeets(wanted: seq<Condition>, row: Row, i: nat)
    requires i < |wanted|
    ensures Holds(Comparisons(wanted, 1)[i], ValuesOf(wanted), row) <==> Meets(wanted[i], row)
  {
    MeetsByName(wanted[i], row);
    hide Name, Comparisons, ValuesOf, Meets;
    assert Comparisons(wanted, 1)[i] == (Name(wanted[i].column), 1 + i);
    assert ValuesOf(wanted)[i] == wanted[i].value;
  }

  /** Whatever filters are chained, in whatever order and however often, none included, the statement
      under its bindings selects exactly the rows of the table that meet them all; and none at all
      when the table name is not one word. */
  lemma StatementSelectsWanted(table: Bytes, wanted: seq<Condition>, limit: Option<nat>, row: Row)
    ensures Selects(Statement(Rendered(table, wanted, limit), ValuesOf(wanted)), row)
       <==> Free(table, SPACE) && forall c :: c in wanted ==> Meets(c, row)
  {
    hide Rendered, ReadStatement, Holds, Meets, Free;
    if Free(table, SPACE) {
      StatementReads(table, wanted, limit);
      forall i | 0 <= i < |wanted|
        ensures Holds(Comparisons(wanted, 1)[i], ValuesOf(wanted), row) <==> Meets(wanted[i], row)
      {
        ComparisonMeets(wanted, row, i);
      }
    } else {
      SpacedSelectsNothing(table, wanted, limit, row);
    }
  }
}
