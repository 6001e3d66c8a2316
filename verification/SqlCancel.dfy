/**
 Cancellation in the SQL store: the text and the bound values of the generated DELETE, what they mean
 on a row, and that they remove what the in-memory cancellation removes.
 */
module SqlCancel {
  import opened Bytes
  import opened Values
  import opened Storage
  import opened StorageLaws

  // ---- the table --------------------------------------------------------------------------

  datatype Column =
    | ServiceTypeColumn | MessageIdColumn | SourceTonColumn | SourceNpiColumn | SourceAddrColumn
    | DestTonColumn | DestNpiColumn | DestinationColumn

  datatype Sql = Text(t: bytes) | Int(n: int)

  /** The columns a cancellation may look at, and the message itself. */
  datatype Row = Row(cells: map<Column, Sql>, message: Message)

  function ColumnName(c: Column): (s: string)
    ensures s != "" && ' ' !in s
  {
    match c
    case ServiceTypeColumn => "service_type"
    case MessageIdColumn => "message_id"
    case SourceTonColumn => "source_addr_ton"
    case SourceNpiColumn => "source_addr_npi"
    case SourceAddrColumn => "source_addr"
    case DestTonColumn => "dest_addr_ton"
    case DestNpiColumn => "dest_addr_npi"
    case DestinationColumn => "destination_addr"
  }

  /** The message field a column is filled from and compared with. */
  function FieldOf(c: Column): (n: Name)
  {
    match c
    case ServiceTypeColumn => ServiceType
    case MessageIdColumn => MessageId
    case SourceTonColumn => SourceAddrTon
    case SourceNpiColumn => SourceAddrNpi
    case SourceAddrColumn => SourceAddr
    case DestTonColumn => DestAddrTon
    case DestNpiColumn => DestAddrNpi
    case DestinationColumn => DestinationAddr
  }

  predicate IsNumber(c: Column)
  {
    c.SourceTonColumn? || c.SourceNpiColumn? || c.DestTonColumn? || c.DestNpiColumn?
  }

  /** All columns, in the order their criteria are looked at. */
  function Columns(): (r: seq<Column>)
    ensures |r| == 8
  {
    [ServiceTypeColumn, MessageIdColumn, SourceTonColumn, SourceNpiColumn, SourceAddrColumn,
     DestTonColumn, DestNpiColumn, DestinationColumn]
  }

  /** A number cut to 16 bits and read as signed. */
  function AsI16(n: nat): (r: int)
    ensures n < 0x8000 ==> r == n
  {
    var low := n % 0x1_0000;
    if low < 0x8000 then low else low - 0x1_0000
  }

  /** A number cut to 32 bits and read as signed. */
  function AsI32(n: nat): (r: int)
    ensures n < 0x8000_0000 ==> r == n
  {
    var low := n % U32_LIMIT;
    if low < 0x8000_0000 then low else low - U32_LIMIT
  }

  /** The columns of a saved message; numbers are stored in 16 bits. */
  function RowOf(i: Id, m: Message): (r: Row)
    ensures forall c: Column :: c in r.cells
  {
    Row(map c: Column | true ::
          if c == MessageIdColumn then Text(i)
          else if IsNumber(c) then Int(AsI16(NumberOr0(m, FieldOf(c))))
          else Text(StringOrEmpty(m, FieldOf(c))), m)
  }

  // ---- the statement ----------------------------------------------------------------------

  /** The value a cancel_sm gives for a column; numbers are compared in 32 bits. */
  function Criterion(c: Message, col: Column): (v: Sql)
  {
    if IsNumber(col) then Int(AsI32(NumberOr0(c, FieldOf(col))))
    else Text(StringOrEmpty(c, FieldOf(col)))
  }

  predicate Given(c: Message, col: Column)
  {
    Criterion(c, col) != Int(0) && Criterion(c, col) != Text([])
  }

  function GivenIn(c: Message): Column -> bool
  {
    col => Given(c, col)
  }

  function Digits(n: nat): (s: string)
    ensures s != "" && forall d <- s :: '0' <= d <= '9'
  {
    (if n < 10 then "" else Digits(n / 10)) + [(n % 10) as char + '0']
  }

  function Clause(col: Column, k: nat): (s: string)
  {
    ColumnName(col) + " = $" + Digits(k)
  }

  /** Clauses with parameters numbered from `k`, joined by AND. */
  function Clauses(columns: seq<Column>, k: nat): (s: string)
  {
    if columns == [] then ""
    else if |columns| == 1 then Clause(columns[0], k)
    else Clause(columns[0], k) + " AND " + Clauses(columns[1..], k + 1)
  }

  datatype Query = Query(text: string, binds: seq<Sql>)

  /** `DELETE FROM message_queue WHERE condition`. */
  function DeleteWhere(condition: string): (s: string)
  {
    "DELETE" + " " + ("FROM" + " " + ("message_queue" + " " + ("WHERE" + " " + condition)))
  }

  function Binds(c: Message, columns: seq<Column>): (r: seq<Sql>)
    ensures |r| == |columns|
  {
    seq(|columns|, j requires 0 <= j < |columns| => Criterion(c, columns[j]))
  }

  /** The statement for a cancel_sm; refused when it gives no criterion. */
  function DeleteFor(c: Message): (q: Option<Query>)
  {
    var columns := Filter(Columns(), GivenIn(c));
    if columns == [] then None else Some(Query(DeleteWhere(Clauses(columns, 1)), Binds(c, columns)))
  }

  function Position(columns: seq<Column>, col: Column): (k: nat)
    requires col in columns
    ensures k < |columns| && columns[k] == col && col !in columns[..k]
  {
    if columns[0] == col then 0 else 1 + Position(columns[1..], col)
  }

  // ---- what a statement means -------------------------------------------------------------

  /** A statement's words, separated by spaces. */
  function Words(s: string): (words: seq<string>)
    ensures words != []
  {
    if s == "" then [""]
    else
      var rest := Words(s[1..]);
      if s[0] == ' ' then [""] + rest else [[s[0]] + rest[0]] + rest[1..]
  }

  function Undigits(s: string): (n: Option<nat>)
  {
    if s == "" || !('0' <= s[|s| - 1] <= '9') then None
    else
      var last := (s[|s| - 1] - '0') as nat;
      if |s| == 1 then Some(last)
      else
        var high := Undigits(s[..|s| - 1]);
        if high.None? then None else Some(10 * high.value + last)
  }

  function ColumnNamed(columns: seq<Column>, s: string): (col: Option<Column>)
  {
    if columns == [] then None
    else if ColumnName(columns[0]) == s then Some(columns[0])
    else ColumnNamed(columns[1..], s)
  }

  /** `column = $k`, for a bound parameter. */
  function Compare(words: seq<string>, binds: seq<Sql>, row: Row): (r: Option<bool>)
    requires |words| >= 3
  {
    var col := ColumnNamed(Columns(), words[0]);
    var k := if words[2] != "" && words[2][0] == '$' then Undigits(words[2][1..]) else None;
    if col.None? || k.None? || words[1] != "=" then None
    else if !(1 <= k.value <= |binds|) || col.value !in row.cells then None
    else Some(row.cells[col.value] == binds[k.value - 1])
  }

  /** A condition: comparisons joined by AND; none when it cannot be read. */
  function Evaluate(words: seq<string>, binds: seq<Sql>, row: Row): (r: Option<bool>)
    decreases |words|
  {
    if |words| < 3 then None else
    var first := Compare(words, binds, row);
    if |words| == 3 then first
    else if words[3] != "AND" then None
    else
      var rest := Evaluate(words[4..], binds, row);
      if first.None? || rest.None? then None else Some(first.value && rest.value)
  }

  /** Whether a DELETE on the message table applies to a row. */
  function Selects(q: Query, row: Row): (r: Option<bool>)
  {
    var words := Words(q.text);
    if |words| < 4 || words[..4] != ["DELETE", "FROM", "message_queue", "WHERE"] then None
    else Evaluate(words[4..], q.binds, row)
  }

  // ---- reading the text back --------------------------------------------------------------

  lemma {:induction false} NumberOfDigits(n: nat)
    ensures Undigits(Digits(n)) == Some(n)
  {
    var d := Digits(n);
    assert d[|d| - 1] == (n % 10) as char + '0';
    if n >= 10 {
      NumberOfDigits(n / 10);
      assert d[..|d| - 1] == Digits(n / 10);
    }
  }

  lemma {:induction false} FirstWord(w: string, rest: string)
    requires ' ' !in w
    ensures Words(w) == [w]
    ensures Words(w + " " + rest) == [w] + Words(rest)
  {
    var s := w + " " + rest;
    if w == "" {
      assert s == " " + rest && s[1..] == rest && s[0] == ' ';
      assert [""] + Words(rest) == [w] + Words(rest);
    } else {
      assert s[1..] == w[1..] + " " + rest;
      FirstWord(w[1..], rest);
      assert [w[0]] + w[1..] == w;
    }
  }

  lemma ClauseWords(col: Column, k: nat, rest: string)
    ensures Words(Clause(col, k)) == [ColumnName(col), "=", "$" + Digits(k)]
    ensures Words(Clause(col, k) + " AND " + rest) == [ColumnName(col), "=", "$" + Digits(k), "AND"] + Words(rest)
  {
    hide Words, ColumnName, Digits;
    var name, param := ColumnName(col), "$" + Digits(k);
    FirstWord(param, "AND" + " " + rest);
    FirstWord("AND", rest);
    FirstWord("=", param);
    FirstWord("=", param + " " + ("AND" + " " + rest));
    FirstWord(name, "=" + " " + param);
    FirstWord(name, "=" + " " + (param + " " + ("AND" + " " + rest)));
    assert Clause(col, k) == name + " " + ("=" + " " + param);
    assert Clause(col, k) + " AND " + rest == name + " " + ("=" + " " + (param + " " + ("AND" + " " + rest)));
  }

  lemma CompareClause(col: Column, k: nat, binds: seq<Sql>, row: Row, more: seq<string>)
    requires 1 <= k <= |binds| && col in row.cells
    ensures Compare([ColumnName(col), "=", "$" + Digits(k)] + more, binds, row) == Some(row.cells[col] == binds[k - 1])
  {
    hide ColumnName, Digits, Undigits, ColumnNamed;
    NumberOfDigits(k);
    EveryColumn(col);
    NamedColumn(Columns(), col);
    assert ("$" + Digits(k))[1..] == Digits(k);
  }

  lemma EveryColumn(col: Column)
    ensures col in Columns()
  {
    var k := match col
      case ServiceTypeColumn => 0 case MessageIdColumn => 1 case SourceTonColumn => 2 case SourceNpiColumn => 3
      case SourceAddrColumn => 4 case DestTonColumn => 5 case DestNpiColumn => 6 case DestinationColumn => 7;
    assert Columns()[k] == col;
  }

  lemma NamesDiffer(a: Column, b: Column)
    ensures ColumnName(a) == ColumnName(b) ==> a == b
  {
    var s, t := ColumnName(a), ColumnName(b);
    if |s| == |t| == 13 { assert s[10] == t[10] ==> a == b; }
    if |s| == |t| == 15 { assert s[12] == t[12] ==> a == b; }
  }

  lemma {:induction false} NamedColumn(columns: seq<Column>, col: Column)
    requires col in columns
    ensures ColumnNamed(columns, ColumnName(col)) == Some(col)
  {
    hide ColumnName;
    NamesDiffer(columns[0], col);
    if columns[0] != col { NamedColumn(columns[1..], col); }
  }

  /** Each column has the value bound under its number, numbered from `k`. */
  predicate AllBound(columns: seq<Column>, k: nat, binds: seq<Sql>, row: Row)
    requires 1 <= k && k - 1 + |columns| == |binds|
    requires forall col :: col in row.cells
  {
    forall j :: 0 <= j < |columns| ==> row.cells[columns[j]] == binds[k - 1 + j]
  }

  /** Clause j, numbered from k, compares its column with the bound value of that number. */
  lemma {:induction false} EvaluateClauses(columns: seq<Column>, k: nat, binds: seq<Sql>, row: Row)
    requires columns != [] && 1 <= k && k - 1 + |columns| == |binds|
    requires forall col :: col in row.cells
    ensures Evaluate(Words(Clauses(columns, k)), binds, row) == Some(AllBound(columns, k, binds, row))
    decreases |columns|
  {
    hide Words, Compare, Clause;
    var rest := Clauses(columns[1..], k + 1);
    ClauseWords(columns[0], k, rest);
    CompareClause(columns[0], k, binds, row, []);
    CompareClause(columns[0], k, binds, row, ["AND"] + Words(rest));
    var head := [ColumnName(columns[0]), "=", "$" + Digits(k)];
    if |columns| == 1 {
      assert head + [] == head;
    } else {
      EvaluateClauses(columns[1..], k + 1, binds, row);
      assert head + (["AND"] + Words(rest)) == [ColumnName(columns[0]), "=", "$" + Digits(k), "AND"] + Words(rest);
      assert forall j :: 1 <= j < |columns| ==> columns[j] == columns[1..][j - 1];
    }
  }

  lemma DeleteWords(condition: string)
    ensures Words(DeleteWhere(condition)) == ["DELETE", "FROM", "message_queue", "WHERE"] + Words(condition)
  {
    hide Words;
    FirstWord("WHERE", condition);
    FirstWord("message_queue", "WHERE" + " " + condition);
    FirstWord("FROM", "message_queue" + " " + ("WHERE" + " " + condition));
    FirstWord("DELETE", "FROM" + " " + ("message_queue" + " " + ("WHERE" + " " + condition)));
  }

  /** What the criteria of a cancel_sm say of a row. */
  predicate Meets(c: Message, row: Row)
    requires forall col :: col in row.cells
  {
    forall col <- Columns() :: Given(c, col) ==> row.cells[col] == Criterion(c, col)
  }

  /** The bound values of the given columns are met exactly when the criteria are. */
  lemma BindsMeanCriteria(c: Message, row: Row)
    requires forall col :: col in row.cells
    ensures var columns := Filter(Columns(), GivenIn(c));
            AllBound(columns, 1, Binds(c, columns), row) <==> Meets(c, row)
  {
    hide Filter, Given, Criterion, Columns;
    var columns := Filter(Columns(), GivenIn(c));
    assert AllBound(columns, 1, Binds(c, columns), row)
        == forall j :: 0 <= j < |columns| ==> row.cells[columns[j]] == Binds(c, columns)[j];
    if Meets(c, row) {
      forall j | 0 <= j < |columns| ensures row.cells[columns[j]] == Binds(c, columns)[j] {
        assert columns[j] in columns;
      }
    }
    if forall j :: 0 <= j < |columns| ==> row.cells[columns[j]] == Binds(c, columns)[j] {
      forall col <- Columns() | Given(c, col) ensures row.cells[col] == Criterion(c, col) {
        assert col in columns;
        var j :| 0 <= j < |columns| && columns[j] == col;
        assert row.cells[columns[j]] == Binds(c, columns)[j];
      }
    }
  }

  /** On every row the generated text, read with its bound values, is the conjunction of the given criteria. */
  lemma StatementMeansCriteria(c: Message, row: Row)
    requires DeleteFor(c).Some?
    requires forall col :: col in row.cells
    ensures Selects(DeleteFor(c).value, row) == Some(Meets(c, row))
  {
    hide Words, Evaluate, Clauses, Given, Criterion, DeleteWhere, Filter, Meets, Columns, Binds, AllBound;
    var columns := Filter(Columns(), GivenIn(c));
    var binds := Binds(c, columns);
    DeleteWords(Clauses(columns, 1));
    DropPrefix(["DELETE", "FROM", "message_queue", "WHERE"], Words(Clauses(columns, 1)));
    EvaluateClauses(columns, 1, binds, row);
    BindsMeanCriteria(c, row);
  }

  // ---- building the statement -------------------------------------------------------------

  /** The name of a cancel_sm's field is the name of its column. */
  function NameInSql(n: Name): (s: string)
  {
    match n
    case ServiceType => "service_type"
    case MessageId => "message_id"
    case SourceAddrTon => "source_addr_ton"
    case SourceAddrNpi => "source_addr_npi"
    case SourceAddr => "source_addr"
    case DestAddrTon => "dest_addr_ton"
    case DestAddrNpi => "dest_addr_npi"
    case DestinationAddr => "destination_addr"
    case _ => ""
  }

  /** A cancel_sm with one criterion becomes a statement about the column of that name. */
  lemma OneCriterionText(c: Message, col: Column)
    requires forall x: Column :: Given(c, x) <==> x == col
    ensures DeleteFor(c).Some?
    ensures DeleteFor(c).value.text == "DELETE FROM message_queue WHERE " + (NameInSql(FieldOf(col)) + " = $1")
    ensures DeleteFor(c).value.binds == [Criterion(c, col)]
  {
    hide Given, Columns, DeleteWhere, NameInSql, ColumnName, FieldOf, Criterion, Filter;
    OnlyColumn(c, col);
    OneClause(col);
    WholeText(Clauses([col], 1));
  }

  lemma OneClause(col: Column)
    ensures Clauses([col], 1) == NameInSql(FieldOf(col)) + " = $1"
  {
    hide NameInSql, ColumnName, FieldOf;
    OneDigit();
    NamedAlike(col);
    assert " = $" + "1" == " = $1";
    assert ColumnName(col) + " = $" + "1" == ColumnName(col) + (" = $" + "1");
  }

  lemma NamedAlike(col: Column)
    ensures ColumnName(col) == NameInSql(FieldOf(col))
  {}

  lemma WholeText(condition: string)
    ensures DeleteWhere(condition) == "DELETE FROM message_queue WHERE " + condition
  {}

  lemma OneDigit()
    ensures Digits(1) == "1"
  {}

  lemma {:induction false} FilterSingle<T(!new)>(s: seq<T>, k: nat, p: T -> bool)
    requires k < |s| && forall j :: 0 <= j < |s| ==> (p(s[j]) <==> j == k)
    ensures Filter(s, p) == [s[k]]
  {
    if k == 0 {
      FilterNone(s[1..], p);
    } else {
      FilterSingle(s[1..], k - 1, p);
    }
  }

  lemma OnlyColumn(c: Message, col: Column)
    requires forall x: Column :: Given(c, x) <==> x == col
    ensures Filter(Columns(), GivenIn(c)) == [col]
  {
    hide Given, Columns;
    EveryColumn(col);
    EveryColumnOnce();
    var cs := Columns();
    var k := Position(cs, col);
    FilterSingle(cs, k, GivenIn(c));
  }

  lemma EveryColumnOnce()
    ensures forall i, j :: 0 <= i < j < 8 ==> Columns()[i] != Columns()[j]
  {}

  lemma NextColumn(c: Message, k: nat, col: Column)
    requires k < 8 && Columns()[k] == col
    ensures Filter(Columns()[..k + 1], GivenIn(c))
         == Filter(Columns()[..k], GivenIn(c)) + (if Given(c, col) then [col] else [])
  {
    hide Given, Filter, Columns;
    assert Columns()[..k + 1] == Columns()[..k] + [col];
    FilterAppend(Columns()[..k], [col], GivenIn(c));
    FilterOne(col, GivenIn(c));
  }

  /** Adds a column to the fields so far, the given ones of the first `k` columns, when it is given. */
  method PushGiven(fields: seq<Column>, c: Message, k: nat, col: Column) returns (r: seq<Column>)
    requires k < 8 && Columns()[k] == col
    requires fields == Filter(Columns()[..k], GivenIn(c))
    ensures r == Filter(Columns()[..k + 1], GivenIn(c))
  {
    hide Filter, Given, Columns;
    NextColumn(c, k, col);
    r := fields;
    if Given(c, col) { r := r + [col]; }
  }

  /** The columns of the criteria that are given, collected one after the other. */
  method QueryFields(c: Message) returns (fields: seq<Column>)
    ensures fields == Filter(Columns(), GivenIn(c))
  {
    hide Filter, Given, Columns;
    fields := [];
    FilterOne(ServiceTypeColumn, GivenIn(c));
    ColumnOrder();
    assert Columns()[..0] == [] && Columns()[..8] == Columns();
    fields := PushGiven(fields, c, 0, ServiceTypeColumn);
    fields := PushGiven(fields, c, 1, MessageIdColumn);
    fields := PushGiven(fields, c, 2, SourceTonColumn);
    fields := PushGiven(fields, c, 3, SourceNpiColumn);
    fields := PushGiven(fields, c, 4, SourceAddrColumn);
    fields := PushGiven(fields, c, 5, DestTonColumn);
    fields := PushGiven(fields, c, 6, DestNpiColumn);
    fields := PushGiven(fields, c, 7, DestinationColumn);
  }

  lemma ColumnOrder()
    ensures var cs := Columns();
            && cs[0] == ServiceTypeColumn && cs[1] == MessageIdColumn && cs[2] == SourceTonColumn
            && cs[3] == SourceNpiColumn && cs[4] == SourceAddrColumn && cs[5] == DestTonColumn
            && cs[6] == DestNpiColumn && cs[7] == DestinationColumn
  {}

  lemma PositionOfDistinct(columns: seq<Column>, j: nat)
    requires j < |columns| && forall a, b :: 0 <= a < b < |columns| ==> columns[a] != columns[b]
    ensures Position(columns, columns[j]) == j
  {}

  /** The condition, each field numbered by its position among the fields. */
  method ConditionText(fields: seq<Column>) returns (text: string)
    requires forall a, b :: 0 <= a < b < |fields| ==> fields[a] != fields[b]
    ensures text == Clauses(fields, 1)
  {
    hide Clause, Position;
    text := "";
    var j := 0;
    while j < |fields|
      invariant j <= |fields|
      invariant Clauses(fields, 1) == if j == |fields| then text
                                      else text + (if j > 0 then " AND " else "") + Clauses(fields[j..], j + 1)
    {
      PositionOfDistinct(fields, j);
      if j > 0 { text := text + " AND "; }
      text := text + Clause(fields[j], Position(fields, fields[j]) + 1);
      j := j + 1;
    }
  }

  method CancelQuery(c: Message) returns (q: Option<Query>)
    ensures q == DeleteFor(c)
  {
    hide Filter;
    var fields := QueryFields(c);
    if fields == [] { return None; }
    FilterDistinct(Columns(), GivenIn(c));
    var text := ConditionText(fields);
    q := Some(Query(DeleteWhere(text), Binds(c, fields)));
  }

  // ---- agreement with the store in memory -------------------------------------------------

  /** A row that came from saving a message. */
  predicate Saved(r: Row)
  {
    MessageIdColumn in r.cells && r.cells[MessageIdColumn].Text? && r == RowOf(r.cells[MessageIdColumn].t, r.message)
  }

  function WithId(i: Id): Row -> bool
  {
    (r: Row) => MessageIdColumn in r.cells && r.cells[MessageIdColumn] == Text(i)
  }

  function Rows(i: Id, es: seq<Entry>): (r: seq<Row>)
  {
    if es == [] then [] else [RowOf(i, es[0].message)] + Rows(i, es[1..])
  }

  /** The table has, for each id and in the same order, the messages the store has. */
  ghost predicate Mirrors(ms: Messages, table: seq<Row>)
  {
    && (forall r <- table :: Saved(r))
    && (forall i :: Filter(table, WithId(i)) == Rows(i, ListOf(ms, i)))
  }

  function Selected(q: Query): Row -> bool
  {
    r => Selects(q, r) == Some(true)
  }

  /** The table after the statement. */
  function Deleted(q: Query, table: seq<Row>): (r: seq<Row>)
  {
    Filter(table, Not(Selected(q)))
  }

  /** Every number a cancellation looks at fits an octet, as all decoded ones do. */
  predicate Octets(m: Message)
  {
    && NumberOr0(m, SourceAddrTon) < 256 && NumberOr0(m, SourceAddrNpi) < 256
    && NumberOr0(m, DestAddrTon) < 256 && NumberOr0(m, DestAddrNpi) < 256
  }

  /** What a column's criterion asks of a message, as the store in memory sees it. */
  predicate Fits(c: Message, i: Id, m: Message, col: Column)
  {
    match col
    case MessageIdColumn => IdMatches(c, i)
    case ServiceTypeColumn => TextMatches(c, m, ServiceType)
    case SourceAddrColumn => TextMatches(c, m, SourceAddr)
    case DestinationColumn => TextMatches(c, m, DestinationAddr)
    case SourceTonColumn => OctetMatches(c, m, SourceAddrTon)
    case SourceNpiColumn => OctetMatches(c, m, SourceAddrNpi)
    case DestTonColumn => OctetMatches(c, m, DestAddrTon)
    case DestNpiColumn => OctetMatches(c, m, DestAddrNpi)
  }

  lemma ColumnAgrees(c: Message, i: Id, m: Message, col: Column)
    requires Octets(c) && Octets(m)
    ensures (Given(c, col) ==> RowOf(i, m).cells[col] == Criterion(c, col)) <==> Fits(c, i, m, col)
  {
    hide StringOrEmpty, NumberOr0;
  }

  lemma CriteriaAgree(c: Message, i: Id, e: Entry)
    requires Octets(c) && Octets(e.message)
    ensures Meets(c, RowOf(i, e.message)) <==> CancelMatches(c, i, e)
  {
    hide Given, Criterion, TextMatches, OctetMatches, IdMatches, RowOf;
    forall col
      ensures col in Columns()
      ensures (Given(c, col) ==> RowOf(i, e.message).cells[col] == Criterion(c, col)) <==> Fits(c, i, e.message, col)
    {
      EveryColumn(col);
      ColumnAgrees(c, i, e.message, col);
    }
    assert CancelMatches(c, i, e) <==>
           && Fits(c, i, e.message, MessageIdColumn) && Fits(c, i, e.message, ServiceTypeColumn)
           && Fits(c, i, e.message, SourceAddrColumn) && Fits(c, i, e.message, DestinationColumn)
           && Fits(c, i, e.message, SourceTonColumn) && Fits(c, i, e.message, SourceNpiColumn)
           && Fits(c, i, e.message, DestTonColumn) && Fits(c, i, e.message, DestNpiColumn);
  }

  lemma NothingLeft<T(!new)>(p: T -> bool)
    ensures Filter([], p) == []
  {}

  lemma RowsCons(i: Id, e: Entry, es: seq<Entry>)
    ensures Rows(i, [e] + es) == [RowOf(i, e.message)] + Rows(i, es)
  {
    assert ([e] + es)[1..] == es;
  }

  lemma {:induction false} RowsFiltered(i: Id, es: seq<Entry>, p: Entry -> bool, q: Row -> bool)
    requires forall e <- es :: q(RowOf(i, e.message)) == p(e)
    ensures Filter(Rows(i, es), q) == Rows(i, Filter(es, p))
  {
    hide RowOf, Filter;
    if es == [] {
      NothingLeft(p);
      NothingLeft(q);
    } else {
      assert es[0] in es && es == [es[0]] + es[1..];
      var row, rest := RowOf(i, es[0].message), Rows(i, es[1..]);
      FilterCons(row, rest, q);
      FilterCons(es[0], es[1..], p);
      RowsFiltered(i, es[1..], p, q);
      RowsCons(i, es[0], Filter(es[1..], p));
      assert [] + Filter(es[1..], p) == Filter(es[1..], p);
      assert q(row) == p(es[0]);
      assert Rows(i, es) == [row] + rest;
    }
  }

  lemma FiltersCommute<T(!new)>(s: seq<T>, p: T -> bool, q: T -> bool)
    ensures Filter(Filter(s, p), q) == Filter(Filter(s, q), p)
  {
    FilterTwice(s, p, q, x => p(x) && q(x));
    FilterTwice(s, q, p, x => p(x) && q(x));
  }

  lemma CancelledList(s: Store, c: Message, i: Id)
    ensures ListOf(Cancel(s, c).messages, i) == Filter(ListOf(s.messages, i), Not(Matching(c, i)))
  {}

  /** The statement selects a saved row exactly when the store's cancellation matches the message. */
  lemma SelectsAgrees(c: Message, i: Id, e: Entry)
    requires DeleteFor(c).Some? && Octets(c) && Octets(e.message)
    ensures Selected(DeleteFor(c).value)(RowOf(i, e.message)) <==> CancelMatches(c, i, e)
  {
    hide DeleteFor, CancelMatches, RowOf;
    StatementMeansCriteria(c, RowOf(i, e.message));
    CriteriaAgree(c, i, e);
  }

  /**
   On a table that mirrors the store, with numbers of one octet and at least one criterion, the
   generated DELETE leaves a table that mirrors the store after its own cancellation.
   */
  lemma DeleteRefinesCancel(s: Store, c: Message, table: seq<Row>)
    requires Mirrors(s.messages, table) && DeleteFor(c).Some? && Octets(c)
    requires forall i <- s.messages, e <- s.messages[i] :: Octets(e.message)
    ensures Mirrors(Cancel(s, c).messages, Deleted(DeleteFor(c).value, table))
  {
    hide Filter, Octets, DeleteFor, RowOf, CancelMatches, Cancel, Selected, Selects;
    var q := DeleteFor(c).value;
    var keep := Not(Selected(q));
    forall i
      ensures Filter(Deleted(q, table), WithId(i)) == Rows(i, ListOf(Cancel(s, c).messages, i))
    {
      var es, p := ListOf(s.messages, i), Not(Matching(c, i));
      FiltersCommute(table, keep, WithId(i));
      forall e <- es ensures keep(RowOf(i, e.message)) == p(e) { SelectsAgrees(c, i, e); }
      RowsFiltered(i, es, p, keep);
      CancelledList(s, c, i);
    }
  }

  lemma {:induction false} RowsHas(i: Id, es: seq<Entry>, r: Row)
    ensures r in Rows(i, es) <==> exists e <- es :: r == RowOf(i, e.message)
  {
    hide RowOf;
    if es != [] {
      RowsHas(i, es[1..], r);
      assert forall e <- es :: e == es[0] || e in es[1..];
    }
  }

  /** Both report success alike: rows were deleted exactly when some stored message matches. */
  lemma DeletedSomethingIff(s: Store, c: Message, table: seq<Row>)
    requires Mirrors(s.messages, table) && DeleteFor(c).Some? && Octets(c)
    requires forall i <- s.messages, e <- s.messages[i] :: Octets(e.message)
    ensures |Deleted(DeleteFor(c).value, table)| < |table|
            <==> exists i <- s.messages, e <- s.messages[i] :: CancelMatches(c, i, e)
  {
    hide Filter, Octets, DeleteFor, RowOf, CancelMatches, Rows;
    var q := DeleteFor(c).value;
    var keep := Not(Selected(q));
    FilterFull(table, keep);
    FilterShorter(table, keep);
    forall r <- table
      ensures exists i, e :: i in s.messages && e in s.messages[i] && r == RowOf(i, e.message)
    {
      var i := r.cells[MessageIdColumn].t;
      assert r in Filter(table, WithId(i));
      RowsHas(i, ListOf(s.messages, i), r);
    }
    forall i <- s.messages, e <- s.messages[i]
      ensures RowOf(i, e.message) in table
      ensures Selected(q)(RowOf(i, e.message)) <==> CancelMatches(c, i, e)
    {
      RowsHas(i, s.messages[i], RowOf(i, e.message));
      assert RowOf(i, e.message) in Filter(table, WithId(i));
      SelectsAgrees(c, i, e);
    }
  }

  /** With numbers of one octet, SQL refuses exactly the cancel_sm that would empty the store in memory. */
  lemma RefusedIffNoCriterion(c: Message)
    requires Octets(c)
    ensures DeleteFor(c).None? <==> NoCriterion(c)
  {
    hide StringOrEmpty, NumberOr0, Filter, DeleteWhere, Given, Columns, Clauses;
    forall col ensures col in Columns() && (Given(c, col) <==> !Blank(c, col)) {
      EveryColumn(col);
      GivenOrBlank(c, col);
    }
    if col :| Given(c, col) {
      assert col in Filter(Columns(), GivenIn(c));
    } else {
      FilterNone(Columns(), GivenIn(c));
      assert Blank(c, ServiceTypeColumn) && Blank(c, MessageIdColumn) && Blank(c, SourceTonColumn)
          && Blank(c, SourceNpiColumn) && Blank(c, SourceAddrColumn) && Blank(c, DestTonColumn)
          && Blank(c, DestNpiColumn) && Blank(c, DestinationColumn);
    }
  }

  predicate Blank(c: Message, col: Column)
  {
    if IsNumber(col) then Octet(c, FieldOf(col)) == 0 else StringOrEmpty(c, FieldOf(col)) == []
  }

  lemma GivenOrBlank(c: Message, col: Column)
    requires Octets(c)
    ensures Given(c, col) <==> !Blank(c, col)
  {
    hide StringOrEmpty, NumberOr0;
  }

  /** 256 is a criterion to SQL, which truncates to 32 bits, and none in memory, which truncates to 8. */
  lemma WideNumberDiffers(c: Message, i: Id, e: Entry)
    requires c == map[SourceAddrTon := Number(256)] && NumberOr0(e.message, SourceAddrTon) == 1
    ensures CancelMatches(c, i, e) && NoCriterion(c)
    ensures DeleteFor(c).Some? && Selects(DeleteFor(c).value, RowOf(i, e.message)) == Some(false)
  {
    hide Selects, Filter, DeleteWhere, Clauses, Binds, RowOf, Meets, Given, CancelMatches, NoCriterion;
    EveryColumn(SourceTonColumn);
    WideCriterion(c, i, e.message);
    var given := Filter(Columns(), GivenIn(c));
    assert SourceTonColumn in given && given != [];
    StatementMeansCriteria(c, RowOf(i, e.message));
    WideIsNone(c, i, e);
  }

  lemma WideIsNone(c: Message, i: Id, e: Entry)
    requires c == map[SourceAddrTon := Number(256)]
    ensures CancelMatches(c, i, e) && NoCriterion(c)
  {}

  lemma WideCriterion(c: Message, i: Id, m: Message)
    requires c == map[SourceAddrTon := Number(256)] && NumberOr0(m, SourceAddrTon) == 1
    ensures Given(c, SourceTonColumn) && !Meets(c, RowOf(i, m))
  {
    EveryColumn(SourceTonColumn);
  }

  lemma {:induction false} RowsAppend(i: Id, es: seq<Entry>, e: Entry)
    ensures Rows(i, es + [e]) == Rows(i, es) + [RowOf(i, e.message)]
  {
    hide RowOf;
    if es == [] {
      assert es + [e] == [e];
    } else {
      assert (es + [e])[1..] == es[1..] + [e];
      RowsAppend(i, es[1..], e);
    }
  }

  /** Saving in both keeps the table a mirror. */
  lemma SaveMirrors(s: Store, i: Id, m: Message, fallback: nat, t: Times, table: seq<Row>)
    requires Mirrors(s.messages, table) && SaveRefusal(m, fallback, t).None?
    ensures Mirrors(Save(s, i, m, fallback, t).messages, table + [RowOf(i, m)])
  {
    hide Filter, Rows, SaveRefusal, ScheduleTime, ValidityTime, StringOrEmpty, NumberOr0, AsI16;
    var row, s' := RowOf(i, m), Save(s, i, m, fallback, t);
    forall j
      ensures Filter(table + [row], WithId(j)) == Rows(j, ListOf(s'.messages, j))
    {
      FilterAppend(table, [row], WithId(j));
      FilterOne(row, WithId(j));
      if j == i { RowsAppend(i, ListOf(s.messages, i), NewEntry(m, fallback, t)); }
    }
  }

  // ---- saving in SQL ----------------------------------------------------------------------

  /** SQL refuses a message without destination or scheduled in the past. */
  predicate SqlAccepts(m: Message, t: Times)
  {
    StringOrEmpty(m, DestinationAddr) != [] && (ScheduleTime(m, t).Some? ==> t.now <= ScheduleTime(m, t).value)
  }

  /** A row with the service type, source and destination of a message. */
  predicate InPlaceOf(m: Message, r: Row)
  {
    forall col <- Columns() :: col != MessageIdColumn ==> col in r.cells && r.cells[col] == Criterion(m, col)
  }

  function PlaceOf(m: Message): Row -> bool
  {
    r => InPlaceOf(m, r)
  }

  /** The table after a save, and whether it was accepted; rows to be replaced go first in any case. */
  function SqlSave(table: seq<Row>, i: Id, m: Message, t: Times): (r: (seq<Row>, bool))
  {
    var kept := if Storage.Octet(m, ReplaceIfPresentFlag) == 1 then Filter(table, Not(PlaceOf(m))) else table;
    if SqlAccepts(m, t) then (kept + [RowOf(i, m)], true) else (kept, false)
  }

  lemma {:induction false} RowsLength(i: Id, es: seq<Entry>)
    ensures |Rows(i, es)| == |es|
  {
    if es != [] { RowsLength(i, es[1..]); }
  }

  /** Without replacement, saving in both keeps the table a mirror exactly when both accept or both refuse. */
  lemma SaveMirrorsIff(s: Store, i: Id, m: Message, fallback: nat, t: Times, table: seq<Row>)
    requires Mirrors(s.messages, table) && Storage.Octet(m, ReplaceIfPresentFlag) != 1
    ensures Mirrors(Save(s, i, m, fallback, t).messages, SqlSave(table, i, m, t).0)
            <==> (SaveRefusal(m, fallback, t).None? <==> SqlAccepts(m, t))
  {
    hide Filter, Rows, SaveRefusal, SqlAccepts, RowOf, NewEntry, PlaceOf;
    var es, row := ListOf(s.messages, i), RowOf(i, m);
    var s', table' := Save(s, i, m, fallback, t), SqlSave(table, i, m, t).0;
    if SaveRefusal(m, fallback, t).None? && SqlAccepts(m, t) {
      SaveMirrors(s, i, m, fallback, t, table);
    } else if SaveRefusal(m, fallback, t).None? {
      RowsLength(i, es);
      RowsLength(i, ListOf(s'.messages, i));
      assert Filter(table', WithId(i)) != Rows(i, ListOf(s'.messages, i));
    } else if SqlAccepts(m, t) {
      FilterAppend(table, [row], WithId(i));
      FilterOne(row, WithId(i));
      RowHasId(i, m);
      assert Filter(table', WithId(i)) != Rows(i, ListOf(s'.messages, i));
    }
  }

  lemma RowHasId(i: Id, m: Message)
    ensures WithId(i)(RowOf(i, m))
  {}

  /** With replace_if_present_flag an accepted message is afterwards the only one in its place. */
  lemma ReplacedIsAlone(table: seq<Row>, i: Id, m: Message, t: Times)
    requires Storage.Octet(m, ReplaceIfPresentFlag) == 1 && SqlAccepts(m, t) && Octets(m)
    ensures Filter(SqlSave(table, i, m, t).0, PlaceOf(m)) == [RowOf(i, m)]
  {
    hide Filter, SqlAccepts, RowOf, Octets, InPlaceOf, Storage.Octet;
    var kept := Filter(table, Not(PlaceOf(m)));
    FilterAppend(kept, [RowOf(i, m)], PlaceOf(m));
    FilterNone(kept, PlaceOf(m));
    FilterOne(RowOf(i, m), PlaceOf(m));
    RowIsInPlace(i, m);
  }

  lemma RowIsInPlace(i: Id, m: Message)
    requires Octets(m)
    ensures InPlaceOf(m, RowOf(i, m))
  {
    hide StringOrEmpty, NumberOr0;
  }
}
