/** The expense dashboard (`Controle_de_Despesas.py`): its sheet is read into
    two tables, the company's bills (`contas`) and the personal expenses
    (`pessoal`); amounts are cleaned, dates parsed, the rows filtered by a
    period and a category, and totals, the largest group, each bill's status,
    a running total and month labels derived from them. */
module Despesas {
  import opened Wrappers
  import opened Strings
  import opened Decimal
  import opened Currency
  import opened Dates
  import opened Months
  import opened Frames
  import opened Ordering
  import opened Aggregates

  // ---------------------------------------------------------------- amounts

  /** A cell as `clean_monetary_value` receives it: missing (`NaN`), a
      number, or a text. */
  datatype Raw = Missing | Number(x: real) | Text(s: string)

  /** Python's `abs` on a number. */
  function Abs(x: real): (r: real)
    ensures r >= 0.0 && (r == x || r == -x)
  {
    if x < 0.0 then -x else x
  }

  /** `clean_monetary_value`: 0 for a missing cell, the absolute value of a
      number, and for a text the absolute value of what `float()` reads once
      `R$`, spaces and `.` are removed and `,` is turned into `.`. Nothing
      catches the `ValueError` of an unreadable text: it is `Err`. */
  function CleanMonetaryValue(v: Raw): (r: Result<real, string>)
    ensures r.Ok? ==> r.value >= 0.0
    ensures v.Missing? ==> r == Ok(0.0)
    ensures v.Number? ==> r == Ok(Abs(v.x))
    ensures v.Text? ==> (r.Ok? <==> ParseFloat(Normalize(v.s)).Some?)
    ensures v.Text? && r.Ok? ==> r.value == Abs(ParseFloat(Normalize(v.s)).value)
  {
    match v
    case Missing => Ok(0.0)
    case Number(x) => Ok(Abs(x))
    case Text(s) =>
      var parsed := ParseFloat(Normalize(s));
      if parsed.Some? then Ok(Abs(parsed.value)) else Err("ValueError")
  }

  /** The same amount without its sign. */
  function Magnitude(m: Amount): (r: Amount)
    ensures Value(r) == Abs(Value(m))
  {
    Amount(false, m.units, m.hundredths)
  }

  /** The fallback of `convert_to_real`: `f'R$ {abs(value):,.2f}'` with `,`
      and `.` exchanged through `*`. It writes the Brazilian notation of the
      amount's magnitude. */
  function ConvertToReal(m: Amount): (r: string)
    ensures r == BrazilianText(Magnitude(m))
  {
    FormatThenSwap(Magnitude(m), '*');
    SwapSeparators("R$ " + FormatGrouped(Magnitude(m)), '*')
  }

  /** Round trip: `clean_monetary_value` reads what `convert_to_real` writes
      back as the magnitude of the amount, and reads the Brazilian notation
      of a signed amount as its magnitude too. */
  lemma CleanReadsConverted(m: Amount)
    ensures CleanMonetaryValue(Text(ConvertToReal(m))) == Ok(Abs(Value(m)))
    ensures CleanMonetaryValue(Text(BrazilianText(m))) == Ok(Abs(Value(m)))
  {
    ReadBrazilianText(Magnitude(m));
    ReadBrazilianText(m);
  }

  /** The worked example: `R$ 1.234,56` is read as 1234.56. */
  lemma CleanExample()
    ensures CleanMonetaryValue(Text("R$ 1.234,56")) == Ok(1234.56)
  {
    var m := Amount(false, 1234, 56);
    ExampleText();
    ReadBrazilianText(m);
  }

  lemma ExampleText()
    ensures BrazilianText(Amount(false, 1234, 56)) == "R$ 1.234,56"
  {
    ExampleUnits();
    ExampleCents();
    ExampleGroup();
    assert "R$ " + "" + "1.234" + "," + "56" == "R$ 1.234,56";
  }

  lemma ExampleUnits()
    ensures NatToString(1234) == "1234"
  {
    assert NatToString(12) == "12";
    assert NatToString(123) == "123";
  }

  lemma ExampleCents()
    ensures FixedDigits(56, 2) == "56"
  {
    assert FixedDigits(5, 1) == "5";
  }

  lemma ExampleGroup()
    ensures Group("1234", '.') == "1.234"
  {
    assert "1234"[..1] == "1" && "1234"[1..] == "234";
  }

  /** A text holding an ASCII character that neither the cleaning chain
      removes or rewrites (`R`, `$`, `,`) nor `float()` accepts anywhere
      makes the cleaning fail: there is no `try` around it. */
  lemma CleanRejectsForeign(s: string, c: char)
    requires c in s && ForeignToFloat(c) && c !in "R$,"
    ensures CleanMonetaryValue(Text(s)).Err?
  {
    var noMarker := ReplaceAll(s, "R$", "");
    var noSpace := ReplaceAll(noMarker, " ", "");
    var noPoint := ReplaceAll(noSpace, ".", "");
    ReplaceKeeps(s, "R$", "", c);
    ReplaceKeeps(noMarker, " ", "", c);
    ReplaceKeeps(noSpace, ".", "", c);
    ReplaceKeeps(noPoint, ",", ".", c);
    var t := Normalize(s);
    var i :| 0 <= i < |t| && t[i] == c;
    ParseFloatRejectsForeignChar(t, i);
  }

  // ---------------------------------------------------------------- loading

  /** `load_data`: the rows of the sheet after pandas' own header line; the
      first of them becomes the header and leaves the data, then every
      column empty in all remaining rows is dropped. `iloc[0]` raises on a
      sheet without rows: `None`. */
  method LoadData(table: seq<Row>, width: nat) returns (r: Option<Frame>)
    requires Uniform(table, width)
    ensures r.None? <==> |table| == 0
    ensures r.Some? ==> Rectangular(r.value) && |r.value.rows| == |table| - 1
    ensures r.Some? ==> forall k :: 0 <= k < |r.value.labels| ==> HasValue(r.value.rows, k)
    ensures r.Some? ==> r.value == DropEmptyColumns(Frame(table[0], table[1..]))
  {
    if |table| == 0 {
      return None;
    }
    var header := table[0];
    var df := Frame(header, table[1..]);
    assert Rectangular(df);
    ghost var f := df;
    df := DropEmptyColumns(df);
    r := Some(df);
    KeptColumnsHaveValues(f);
  }

  // ---------------------------------------------------------------- two tables

  const ContasLabels: seq<string> := ["Nome", "Valor", "Data_Vencimento", "Data_Pagamento", "Forma_Pagamento", "Categoria"]
  const PessoalLabels: seq<string> := ["Nome", "Valor", "Data"]

  /** `df.iloc[:, 0:6]` and `df.iloc[:, 7:10]` given their new column names.
      Assigning six (three) names to a slice with another number of columns
      raises, so this fails unless the table has at least ten columns. */
  function Split(f: Frame): (r: Option<(Frame, Frame)>)
    requires Rectangular(f)
    ensures r.Some? <==> |f.labels| >= 10
    ensures r.Some? ==> Rectangular(r.value.0) && Rectangular(r.value.1)
    ensures r.Some? ==> |r.value.0.labels| == 6 && |r.value.1.labels| == 3
    ensures r.Some? ==> |r.value.0.rows| == |f.rows| && |r.value.1.rows| == |f.rows|
    ensures r.Some? ==> forall i :: 0 <= i < |f.rows| ==>
      r.value.0.rows[i] == f.rows[i][0..6] && r.value.1.rows[i] == f.rows[i][7..10]
    ensures r.Some? ==> forall k :: 0 <= k < 6 ==> r.value.0.labels[k] == Some(ContasLabels[k])
    ensures r.Some? ==> forall k :: 0 <= k < 3 ==> r.value.1.labels[k] == Some(PessoalLabels[k])
  {
    var contas := Relabel(Columns(f, 0, 6), ContasLabels);
    var pessoal := Relabel(Columns(f, 7, 10), PessoalLabels);
    if contas.Some? && pessoal.Some? then Some((contas.value, pessoal.value)) else None
  }

  /** The first cell of a row holds a value. */
  predicate HasNome(row: Row)
  {
    |row| > 0 && row[0].Some?
  }

  /** `dropna(subset=['Nome'])`: the rows whose first cell holds a value. */
  function WithNome(rows: seq<Row>): (r: seq<Row>)
    ensures |r| <= |rows|
    ensures forall row :: row in r <==> row in rows && HasNome(row)
  {
    Filter(rows, HasNome)
  }

  /** The filter keeps the surviving rows in their order: it works on each
      part of a table separately. */
  lemma WithNomeKeepsOrder(a: seq<Row>, b: seq<Row>)
    ensures WithNome(a + b) == WithNome(a) + WithNome(b)
  {
    FilterAppend(a, b, HasNome);
  }

  /** The cell of a text column as `clean_monetary_value` sees it. */
  function RawOf(c: Cell): Raw
  {
    if c.Some? then Text(c.value) else Missing
  }

  /** A bill once its amount is cleaned and its two dates parsed. */
  datatype Conta = Conta(nome: string, valor: real, vencimento: Option<Day>, pagamento: Option<Day>,
                         forma: Cell, categoria: Cell)

  /** A personal expense once its amount is cleaned and its date parsed. */
  datatype Gasto = Gasto(nome: string, valor: real, data: Option<Day>)

  /** A column of amounts through `apply(clean_monetary_value)`: the cleaned
      amounts, or the first unreadable amount's error, which stops the whole
      script. */
  function CleanColumn(rows: seq<Row>, col: nat): (r: Result<seq<real>, string>)
    requires forall i :: 0 <= i < |rows| ==> col < |rows[i]|
    ensures r.Ok? <==> forall i :: 0 <= i < |rows| ==> CleanMonetaryValue(RawOf(rows[i][col])).Ok?
    ensures r.Ok? ==> |r.value| == |rows|
    ensures r.Ok? ==> forall i :: 0 <= i < |rows| ==> r.value[i] == CleanMonetaryValue(RawOf(rows[i][col])).value
    ensures r.Ok? ==> NonNegative(r.value)
  {
    if rows == [] then Ok([])
    else
      var head := CleanMonetaryValue(RawOf(rows[0][col]));
      var rest := CleanColumn(rows[1..], col);
      if head.Err? then Err(head.error)
      else if rest.Err? then
        NotAllReadable(rows, col);
        Err(rest.error)
      else Ok([head.value] + rest.value)
  }

  lemma NotAllReadable(rows: seq<Row>, col: nat)
    requires |rows| > 0 && forall i :: 0 <= i < |rows| ==> col < |rows[i]|
    requires !forall i :: 0 <= i < |rows| - 1 ==> CleanMonetaryValue(RawOf(rows[1..][i][col])).Ok?
    ensures !forall i :: 0 <= i < |rows| ==> CleanMonetaryValue(RawOf(rows[i][col])).Ok?
  {
    var i :| 0 <= i < |rows| - 1 && !CleanMonetaryValue(RawOf(rows[1..][i][col])).Ok?;
    assert rows[1..][i] == rows[i + 1];
  }

  /** The bills of the rows that have a name: `Valor` through
      `clean_monetary_value`, both dates through `to_datetime`. */
  function ContaRows(rows: seq<Row>): (r: Result<seq<Conta>, string>)
    requires forall i :: 0 <= i < |rows| ==> |rows[i]| == 6 && rows[i][0].Some?
    ensures r.Ok? <==> forall i :: 0 <= i < |rows| ==> CleanMonetaryValue(RawOf(rows[i][1])).Ok?
    ensures r.Ok? ==> |r.value| == |rows|
    ensures r.Ok? ==> forall i :: 0 <= i < |rows| ==>
      r.value[i].nome == rows[i][0].value && r.value[i].valor == CleanMonetaryValue(RawOf(rows[i][1])).value &&
      r.value[i].vencimento == ParseDateCell(rows[i][2]) && r.value[i].pagamento == ParseDateCell(rows[i][3]) &&
      r.value[i].forma == rows[i][4] && r.value[i].categoria == rows[i][5]
    ensures r.Ok? ==> forall i :: 0 <= i < |r.value| ==> r.value[i].valor >= 0.0
  {
    var valores := CleanColumn(rows, 1);
    if valores.Err? then Err(valores.error)
    else
      Ok(seq(|rows|, i requires 0 <= i < |rows| =>
        Conta(rows[i][0].value, valores.value[i], ParseDateCell(rows[i][2]), ParseDateCell(rows[i][3]), rows[i][4], rows[i][5])))
  }

  /** The personal expenses of the rows that have a name. */
  function GastoRows(rows: seq<Row>): (r: Result<seq<Gasto>, string>)
    requires forall i :: 0 <= i < |rows| ==> |rows[i]| == 3 && rows[i][0].Some?
    ensures r.Ok? <==> forall i :: 0 <= i < |rows| ==> CleanMonetaryValue(RawOf(rows[i][1])).Ok?
    ensures r.Ok? ==> |r.value| == |rows|
    ensures r.Ok? ==> forall i :: 0 <= i < |rows| ==>
      r.value[i].nome == rows[i][0].value && r.value[i].valor == CleanMonetaryValue(RawOf(rows[i][1])).value &&
      r.value[i].data == ParseDateCell(rows[i][2])
    ensures r.Ok? ==> forall i :: 0 <= i < |r.value| ==> r.value[i].valor >= 0.0
  {
    var valores := CleanColumn(rows, 1);
    if valores.Err? then Err(valores.error)
    else
      Ok(seq(|rows|, i requires 0 <= i < |rows| => Gasto(rows[i][0].value, valores.value[i], ParseDateCell(rows[i][2]))))
  }

  /** The rows kept by the `Nome` filter have the table's width and a name. */
  lemma NamedRowsShape(rows: seq<Row>, width: nat)
    requires forall i :: 0 <= i < |rows| ==> |rows[i]| == width
    ensures forall i :: 0 <= i < |WithNome(rows)| ==> |WithNome(rows)[i]| == width && WithNome(rows)[i][0].Some?
  {
    var kept: seq<Row> := WithNome(rows);
    forall i: int | 0 <= i < |kept|
      ensures |kept[i]| == width && kept[i][0].Some?
    {
      assert kept[i] in kept;
    }
  }

  /** The rows with a name of a table of known width, as `ContaRows` and
      `GastoRows` receive them. */
  function NamedRows(rows: seq<Row>, width: nat): (r: seq<Row>)
    requires Uniform(rows, width)
    ensures r == WithNome(rows)
    ensures forall i :: 0 <= i < |r| ==> |r[i]| == width && r[i][0].Some?
  {
    NamedRowsShape(rows, width);
    WithNome(rows)
  }

  /** The whole reading step after `load_data`: split, keep the rows with a
      name, clean `Valor` and parse the dates of both tables. It fails when
      the sheet is narrower than ten columns or an amount is unreadable. */
  function Tables(f: Frame): (r: Result<(seq<Conta>, seq<Gasto>), string>)
    requires Rectangular(f)
    ensures |f.labels| < 10 ==> r.Err?
    ensures r.Ok? <==> (Split(f).Some? &&
      ContaRows(NamedRows(Split(f).value.0.rows, 6)).Ok? && GastoRows(NamedRows(Split(f).value.1.rows, 3)).Ok?)
    ensures r.Ok? ==> (r.value ==
      (ContaRows(NamedRows(Split(f).value.0.rows, 6)).value, GastoRows(NamedRows(Split(f).value.1.rows, 3)).value))
    ensures r.Ok? ==> |r.value.0| <= |f.rows| && |r.value.1| <= |f.rows|
    ensures r.Ok? ==> forall i :: 0 <= i < |r.value.0| ==> r.value.0[i].valor >= 0.0
    ensures r.Ok? ==> forall i :: 0 <= i < |r.value.1| ==> r.value.1[i].valor >= 0.0
  {
    var split := Split(f);
    if split.None? then Err("ValueError")
    else
      var c := ContaRows(NamedRows(split.value.0.rows, 6));
      var p := GastoRows(NamedRows(split.value.1.rows, 3));
      if c.Err? then Err(c.error)
      else if p.Err? then Err(p.error)
      else Ok((c.value, p.value))
  }

  /** The amount of a row is readable by `clean_monetary_value`. */
  predicate AmountReadable(row: Row)
  {
    |row| > 1 && CleanMonetaryValue(RawOf(row[1])).Ok?
  }

  /** The reading step in terms of the sheet itself: it succeeds exactly
      when the sheet has ten columns and every bill with a name (column 0)
      and every expense with a name (column 7) has a readable amount
      (columns 1 and 8); rows without a name never make it fail. */
  lemma TablesSpec(f: Frame)
    requires Rectangular(f)
    ensures Tables(f).Ok? <==> (|f.labels| >= 10 &&
      (forall i :: 0 <= i < |f.rows| && f.rows[i][0].Some? ==> CleanMonetaryValue(RawOf(f.rows[i][1])).Ok?) &&
      (forall i :: 0 <= i < |f.rows| && f.rows[i][7].Some? ==> CleanMonetaryValue(RawOf(f.rows[i][8])).Ok?))
  {
    if |f.labels| >= 10 {
      var split := Split(f).value;
      assert ContaRows(NamedRows(split.0.rows, 6)).Ok? <==>
        (forall i :: 0 <= i < |f.rows| && f.rows[i][0].Some? ==> CleanMonetaryValue(RawOf(f.rows[i][1])).Ok?) by {
        NamedReadable(split.0.rows, 6);
        SliceReadable(f, split.0.rows, 0, 6);
      }
      assert GastoRows(NamedRows(split.1.rows, 3)).Ok? <==>
        (forall i :: 0 <= i < |f.rows| && f.rows[i][7].Some? ==> CleanMonetaryValue(RawOf(f.rows[i][8])).Ok?) by {
        NamedReadable(split.1.rows, 3);
        SliceReadable(f, split.1.rows, 7, 10);
      }
    }
  }

  /** Cleaning the named rows succeeds exactly when every row with a name has
      a readable amount. */
  lemma NamedReadable(rows: seq<Row>, width: nat)
    requires 1 < width && Uniform(rows, width)
    ensures var kept := NamedRows(rows, width);
      (forall k :: 0 <= k < |kept| ==> CleanMonetaryValue(RawOf(kept[k][1])).Ok?) <==>
      (forall i :: 0 <= i < |rows| && HasNome(rows[i]) ==> AmountReadable(rows[i]))
  {
    var kept := NamedRows(rows, width);
    if forall k :: 0 <= k < |kept| ==> CleanMonetaryValue(RawOf(kept[k][1])).Ok? {
      forall i | 0 <= i < |rows| && HasNome(rows[i])
        ensures AmountReadable(rows[i])
      {
        assert rows[i] in kept;
        var k :| 0 <= k < |kept| && kept[k] == rows[i];
      }
    }
    if forall i :: 0 <= i < |rows| && HasNome(rows[i]) ==> AmountReadable(rows[i]) {
      forall k | 0 <= k < |kept|
        ensures CleanMonetaryValue(RawOf(kept[k][1])).Ok?
      {
        assert kept[k] in kept;
        var i :| 0 <= i < |rows| && rows[i] == kept[k];
      }
    }
  }

  /** Reading a slice `lo..hi` of the sheet's columns: its named rows have
      readable amounts exactly when every row with a value in column `lo`
      has a readable amount in column `lo + 1`. */
  lemma SliceReadable(f: Frame, sub: seq<Row>, lo: nat, hi: nat)
    requires Rectangular(f) && lo + 1 < hi <= |f.labels| && |sub| == |f.rows|
    requires forall i :: 0 <= i < |f.rows| ==> sub[i] == f.rows[i][lo..hi]
    ensures (forall i :: 0 <= i < |sub| && HasNome(sub[i]) ==> AmountReadable(sub[i])) <==>
      (forall i :: 0 <= i < |f.rows| && f.rows[i][lo].Some? ==> CleanMonetaryValue(RawOf(f.rows[i][lo + 1])).Ok?)
  {
    forall i | 0 <= i < |f.rows|
      ensures sub[i][0] == f.rows[i][lo] && sub[i][1] == f.rows[i][lo + 1]
    {
      assert sub[i] == f.rows[i][lo..hi];
    }
  }

  // ---------------------------------------------------------------- filters

  /** `date` lies between `start` and `end`, both included; `NaT` compares
      false with everything. */
  predicate InPeriod(date: Option<Day>, start: Date, end: Date)
  {
    date.Some? && NotAfter(start, date.value) && NotAfter(date.value, end)
  }

  /** The period filter: once two dates are picked, the rows whose date (a
      midnight, compared with the picked days' midnights) lies in the
      period; while the widget holds fewer dates, every row. */
  function PeriodFilter<T(!new)>(rows: seq<T>, when: T -> Option<Day>, picked: seq<Date>): (r: seq<T>)
    ensures |r| <= |rows|
    ensures |picked| == 2 ==> forall x :: x in r <==> x in rows && InPeriod(when(x), picked[0], picked[1])
    ensures |picked| != 2 ==> r == rows
  {
    if |picked| == 2 then Filter(rows, x => InPeriod(when(x), picked[0], picked[1])) else rows
  }

  /** The present categories of the bills, `dropna()` of the column. */
  function Categories(contas: seq<Conta>): (r: seq<string>)
    ensures forall k :: k in r <==> exists c :: c in contas && c.categoria == Some(k)
  {
    if contas == [] then []
    else
      var rest := Categories(contas[1..]);
      assert forall c :: c in contas[1..] ==> c in contas;
      assert forall c :: c in contas ==> c == contas[0] || c in contas[1..];
      (if contas[0].categoria.Some? then [contas[0].categoria.value] else []) + rest
  }

  /** The category choices: `Todas` first, then the distinct present
      categories of all bills in increasing order. */
  function CategoryOptions(contas: seq<Conta>): (r: seq<string>)
    ensures |r| > 0 && r[0] == "Todas"
    ensures StrictlySorted(r[1..])
    ensures forall k :: k in r[1..] <==> exists c :: c in contas && c.categoria == Some(k)
  {
    var r := ["Todas"] + SortedDistinct(Categories(contas));
    assert r[1..] == SortedDistinct(Categories(contas));
    r
  }

  /** The choices depend only on which bills there are, not on their order
      or repetition. */
  lemma CategoryOptionsIgnoreOrder(a: seq<Conta>, b: seq<Conta>)
    requires forall c :: c in a <==> c in b
    ensures CategoryOptions(a) == CategoryOptions(b)
  {
    var x, y := CategoryOptions(a), CategoryOptions(b);
    SortedUnique(x[1..], y[1..]);
    assert x == [x[0]] + x[1..] && y == [y[0]] + y[1..];
  }

  predicate InCategory(c: Conta, choice: string)
  {
    c.categoria == Some(choice)
  }

  /** The category filter: `Todas` keeps every bill, any other choice the
      bills of exactly that category (a missing category equals nothing). */
  function CategoryFilter(contas: seq<Conta>, choice: string): (r: seq<Conta>)
    ensures |r| <= |contas|
    ensures choice == "Todas" ==> r == contas
    ensures choice != "Todas" ==> forall c :: c in r <==> c in contas && c.categoria == Some(choice)
  {
    if choice == "Todas" then contas else Filter(contas, c => InCategory(c, choice))
  }

  /** Once two dates are picked, a row is kept exactly as often as it
      occurs when its date lies in the period, and not at all otherwise. */
  lemma PeriodFilterCounts<T(!new)>(rows: seq<T>, when: T -> Option<Day>, picked: seq<Date>, y: T)
    requires |picked| == 2
    ensures multiset(PeriodFilter(rows, when, picked))[y] ==
      if InPeriod(when(y), picked[0], picked[1]) then multiset(rows)[y] else 0
  {
    FilterCounts(rows, x => InPeriod(when(x), picked[0], picked[1]), y);
  }

  /** The period filter works on each part of a table separately, so the
      kept rows stay in their order. */
  lemma PeriodFilterAppend<T(!new)>(a: seq<T>, b: seq<T>, when: T -> Option<Day>, picked: seq<Date>)
    ensures PeriodFilter(a + b, when, picked) == PeriodFilter(a, when, picked) + PeriodFilter(b, when, picked)
  {
    if |picked| == 2 {
      FilterAppend(a, b, x => InPeriod(when(x), picked[0], picked[1]));
    }
  }

  /** A category other than `Todas` keeps each bill of that category as
      often as it occurs, and no other bill. */
  lemma CategoryFilterCounts(contas: seq<Conta>, choice: string, d: Conta)
    requires choice != "Todas"
    ensures multiset(CategoryFilter(contas, choice))[d] ==
      if d.categoria == Some(choice) then multiset(contas)[d] else 0
  {
    FilterCounts(contas, c => InCategory(c, choice), d);
  }

  /** The category filter works on each part of a table separately, so the
      kept bills stay in their order. */
  lemma CategoryFilterAppend(a: seq<Conta>, b: seq<Conta>, choice: string)
    ensures CategoryFilter(a + b, choice) == CategoryFilter(a, choice) + CategoryFilter(b, choice)
  {
    if choice != "Todas" {
      FilterAppend(a, b, c => InCategory(c, choice));
    }
  }

  // ---------------------------------------------------------------- status

  datatype Status = Pago | Pendente | Vencido

  /** `.dt.strftime('%d/%m/%Y')`: the text of a date, `NaN` for `NaT`. */
  function DisplayDate(d: Option<Day>): (r: Option<string>)
    ensures r.Some? <==> d.Some?
  {
    if d.Some? then Some(FormatDate(d.value)) else None
  }

  /** The `Status` column: `Pago` when the payment date's text is present;
      otherwise the due date's text is read back with `to_datetime` and the
      bill is `Pendente` if that midnight comes after `now`, `Vencido`
      otherwise (a missing due date gives `NaT`, which compares false). */
  function StatusOf(c: Conta, now: Moment): Status
  {
    if DisplayDate(c.pagamento).Some? then Pago
    else
      var due := ParseDateCell(DisplayDate(c.vencimento));
      if due.Some? && MidnightAfter(due.value, now) then Pendente else Vencido
  }

  /** The status in terms of the bill's own dates: paid when a payment date
      is present; pending when it is not and the due day is later than
      today; overdue when it is not and the due day is today or earlier, or
      missing. */
  lemma StatusSpec(c: Conta, now: Moment)
    requires ValidMoment(now)
    ensures StatusOf(c, now) == Pago <==> c.pagamento.Some?
    ensures StatusOf(c, now) == Pendente <==>
      c.pagamento.None? && c.vencimento.Some? && Before(now.date, c.vencimento.value)
    ensures StatusOf(c, now) == Vencido <==>
      c.pagamento.None? && (c.vencimento.None? || NotAfter(c.vencimento.value, now.date))
  {
    if c.pagamento.None? && c.vencimento.Some? {
      var due := c.vencimento.value;
      DueDateReread(due);
      assert MidnightAfter(due, now) <==> Before(now.date, due);
    }
  }

  /** The due date written `%d/%m/%Y` and read back is the same day. */
  lemma DueDateReread(d: Day)
    ensures ParseDateCell(DisplayDate(Some(d))) == Some(d)
  {
    ParseFormattedDate(d);
  }

  // ---------------------------------------------------------------- month labels

  /** The `Mês` column for one row: the date written `%d/%m/%Y`, read back,
      written `%B/%Y` and passed through `traduzir_mes`. On a missing date
      `strftime` gives `NaN`, and `traduzir_mes` raises on it (a float has no
      `replace`): `Err`. */
  function MonthLabel(d: Option<Day>): (r: Result<string, string>)
    ensures r.Err? <==> d.None?
  {
    var reread := ParseDateCell(DisplayDate(d));
    if d.Some? then ParseFormattedDate(d.value); Ok(Translated(MonthYear(reread.value), 12))
    else Err("AttributeError")
  }

  /** A present date is labelled with its Portuguese month name and its
      four-digit year. */
  lemma MonthLabelSpec(d: Day)
    ensures MonthLabel(Some(d)) == Ok(PortugueseName(d.month - 1) + "/" + FixedDigits(d.year, 4))
  {
    ParseFormattedDate(d);
    TranslateMonthYear(d);
  }

  /** `apply` over a column whose computation can fail: the values of all
      rows, or the failure of the first row that fails. */
  function FirstError<T>(rs: seq<Result<T, string>>): (r: Result<seq<T>, string>)
    ensures r.Err? <==> exists i :: 0 <= i < |rs| && rs[i].Err?
    ensures r.Ok? ==> |r.value| == |rs| && forall i :: 0 <= i < |rs| ==> rs[i] == Ok(r.value[i])
  {
    if rs == [] then Ok([])
    else if rs[0].Err? then Err(rs[0].error)
    else
      var rest := FirstError(rs[1..]);
      if rest.Err? then
        ErrInTail(rs);
        Err(rest.error)
      else Ok([rs[0].value] + rest.value)
  }

  lemma ErrInTail<T>(rs: seq<Result<T, string>>)
    requires |rs| > 0 && exists i :: 0 <= i < |rs| - 1 && rs[1..][i].Err?
    ensures exists i :: 0 <= i < |rs| && rs[i].Err?
  {
    var i :| 0 <= i < |rs| - 1 && rs[1..][i].Err?;
    assert rs[i + 1] == rs[1..][i];
  }

  /** The whole `Mês` column: one label per expense, or the failure of the
      first row without a date. */
  function MonthLabels(gastos: seq<Gasto>): (r: Result<seq<string>, string>)
    ensures r.Err? <==> exists i :: 0 <= i < |gastos| && gastos[i].data.None?
    ensures r.Ok? ==> |r.value| == |gastos|
    ensures r.Ok? ==> forall i :: 0 <= i < |gastos| ==> MonthLabel(gastos[i].data) == Ok(r.value[i])
  {
    var rs := LabelColumn(gastos);
    ColumnErrors(gastos, rs);
    FirstError(rs)
  }

  /** The label or the failure of each row. */
  function LabelColumn(gastos: seq<Gasto>): (rs: seq<Result<string, string>>)
    ensures |rs| == |gastos|
    ensures forall i :: 0 <= i < |gastos| ==> rs[i] == MonthLabel(gastos[i].data)
    ensures forall i :: 0 <= i < |gastos| ==> (rs[i].Err? <==> gastos[i].data.None?)
  {
    seq(|gastos|, i requires 0 <= i < |gastos| => MonthLabel(gastos[i].data))
  }

  /** A row fails exactly where its date is missing. */
  lemma ColumnErrors(gastos: seq<Gasto>, rs: seq<Result<string, string>>)
    requires |rs| == |gastos|
    requires forall i :: 0 <= i < |gastos| ==> (rs[i].Err? <==> gastos[i].data.None?)
    ensures (exists i :: 0 <= i < |rs| && rs[i].Err?) <==> (exists i :: 0 <= i < |gastos| && gastos[i].data.None?)
  {
  }

  /** Once two dates are picked every remaining expense has a date, so the
      `Mês` column can be computed; it fails only while the widget holds
      fewer dates and some expense has none. */
  lemma LabelsAfterPeriodFilter(gastos: seq<Gasto>, picked: seq<Date>)
    requires |picked| == 2
    ensures MonthLabels(PeriodFilter(gastos, (g: Gasto) => g.data, picked)).Ok?
  {
    var kept := PeriodFilter(gastos, (g: Gasto) => g.data, picked);
    forall i | 0 <= i < |kept|
      ensures kept[i].data.Some?
    {
      assert kept[i] in kept;
    }
  }

  // ---------------------------------------------------------------- figures

  /** The `Valor` column of the personal expenses. */
  function GastoValores(gastos: seq<Gasto>): (r: seq<real>)
    ensures |r| == |gastos| && forall i :: 0 <= i < |gastos| ==> r[i] == gastos[i].valor
  {
    seq(|gastos|, i requires 0 <= i < |gastos| => gastos[i].valor)
  }

  /** The bills reduced to (category, amount). */
  function CategoryEntries(contas: seq<Conta>): (r: seq<Entry>)
    ensures |r| == |contas| && forall i :: 0 <= i < |contas| ==> r[i] == (contas[i].categoria, contas[i].valor)
  {
    seq(|contas|, i requires 0 <= i < |contas| => (contas[i].categoria, contas[i].valor))
  }

  /** A category is a group key exactly when some bill carries it. */
  lemma CategoryPresent(contas: seq<Conta>, k: string)
    ensures Present(CategoryEntries(contas), k) <==> exists c :: c in contas && c.categoria == Some(k)
  {
    var entries := CategoryEntries(contas);
    if Present(entries, k) {
      var e :| e in entries && e.0 == Some(k);
      var i :| 0 <= i < |entries| && entries[i] == e;
      assert contas[i] in contas;
    }
    if exists c :: c in contas && c.categoria == Some(k) {
      var c :| c in contas && c.categoria == Some(k);
      var i :| 0 <= i < |contas| && contas[i] == c;
      assert entries[i] in entries;
    }
  }

  /** The third card of the bills tab: the category with the largest sum
      and that sum, `("N/A", 0)` without categories. */
  function TopCategory(contas: seq<Conta>): (string, real)
  {
    TopKey(CategoryEntries(contas))
  }

  /** The category is one some bill carries, no category sums to more, and
      a tie goes to the category that sorts first. */
  lemma TopCategorySpec(contas: seq<Conta>)
    ensures (forall c :: c in contas ==> c.categoria.None?) ==> TopCategory(contas) == ("N/A", 0.0)
    ensures (exists c :: c in contas && c.categoria.Some?) ==>
      var r := TopCategory(contas);
      (exists c :: c in contas && c.categoria == Some(r.0)) &&
      r.1 == SumFor(CategoryEntries(contas), r.0) &&
      (forall c :: c in contas && c.categoria.Some? ==> SumFor(CategoryEntries(contas), c.categoria.value) <= r.1) &&
      (forall c :: c in contas && c.categoria.Some? && Less(c.categoria.value, r.0) ==>
        SumFor(CategoryEntries(contas), c.categoria.value) < r.1)
  {
    var entries := CategoryEntries(contas);
    var r := TopKey(entries);
    TopKeySpec(entries);
    if forall c :: c in contas ==> c.categoria.None? {
      forall e | e in entries
        ensures e.0.None?
      {
        var i :| 0 <= i < |entries| && entries[i] == e;
        assert contas[i] in contas;
      }
    } else {
      var c :| c in contas && c.categoria.Some?;
      CategoryPresent(contas, c.categoria.value);
      CategoryPresent(contas, r.0);
      forall c | c in contas && c.categoria.Some?
        ensures Present(entries, c.categoria.value)
      {
        CategoryPresent(contas, c.categoria.value);
      }
    }
  }

  /** The expenses that have a date, `dropna(subset=['Data'])`. */
  function WithDate(gastos: seq<Gasto>): (r: seq<Gasto>)
    ensures |r| <= |gastos|
    ensures forall g :: g in r <==> g in gastos && g.data.Some?
  {
    Filter(gastos, (g: Gasto) => g.data.Some?)
  }

  /** The expenses with a date reduced to (name, amount). */
  function NameEntries(gastos: seq<Gasto>): (r: seq<Entry>)
    ensures |r| == |gastos| && forall i :: 0 <= i < |gastos| ==> r[i] == (Some(gastos[i].nome), gastos[i].valor)
  {
    seq(|gastos|, i requires 0 <= i < |gastos| => (Some(gastos[i].nome), gastos[i].valor))
  }

  /** The third card of the personal tab: among the expenses with a date,
      the person with the largest sum and that sum, `("N/A", 0)` when no
      expense has a date (the three empty cases of the source agree). */
  function TopSpender(gastos: seq<Gasto>): (string, real)
  {
    TopKey(NameEntries(WithDate(gastos)))
  }

  /** The person is one with a dated expense, nobody sums to more over the
      dated expenses, and a tie goes to the name that sorts first. */
  lemma TopSpenderSpec(gastos: seq<Gasto>)
    ensures (forall g :: g in gastos ==> g.data.None?) ==> TopSpender(gastos) == ("N/A", 0.0)
    ensures (exists g :: g in gastos && g.data.Some?) ==>
      var r := TopSpender(gastos);
      (exists g :: g in gastos && g.data.Some? && g.nome == r.0) &&
      r.1 == SumFor(NameEntries(WithDate(gastos)), r.0) &&
      (forall g :: g in gastos && g.data.Some? ==> SumFor(NameEntries(WithDate(gastos)), g.nome) <= r.1) &&
      (forall g :: g in gastos && g.data.Some? && Less(g.nome, r.0) ==> SumFor(NameEntries(WithDate(gastos)), g.nome) < r.1)
  {
    var dated := WithDate(gastos);
    var entries := NameEntries(dated);
    var r := TopKey(entries);
    TopKeySpec(entries);
    if forall g :: g in gastos ==> g.data.None? {
      if dated != [] {
        HeadDated(dated);
      }
    } else {
      var g :| g in gastos && g.data.Some?;
      NamePresent(dated, g.nome);
      NamePresent(dated, r.0);
      forall g | g in gastos && g.data.Some?
        ensures Present(entries, g.nome)
      {
        NamePresent(dated, g.nome);
      }
    }
  }

  lemma HeadDated(dated: seq<Gasto>)
    requires dated != []
    ensures dated[0] in dated
  {
  }

  /** A name is a group key exactly when some expense carries it. */
  lemma NamePresent(gastos: seq<Gasto>, k: string)
    ensures Present(NameEntries(gastos), k) <==> exists g :: g in gastos && g.nome == k
  {
    var entries := NameEntries(gastos);
    if Present(entries, k) {
      var e :| e in entries && e.0 == Some(k);
      var i :| 0 <= i < |entries| && entries[i] == e;
      assert gastos[i] in gastos;
    }
    if exists g :: g in gastos && g.nome == k {
      var g :| g in gastos && g.nome == k;
      var i :| 0 <= i < |gastos| && gastos[i] == g;
      assert entries[i] in entries;
    }
  }

  /** The first two cards of the personal tab: total and mean of the
      amounts, both 0 when there is no expense. */
  function PessoalFigures(gastos: seq<Gasto>): (r: (real, real))
    ensures r.0 == Sum(GastoValores(gastos))
    ensures r.1 * |gastos| as real == r.0
    ensures gastos == [] ==> r == (0.0, 0.0)
  {
    if gastos == [] then (0.0, 0.0)
    else (Sum(GastoValores(gastos)), Mean(GastoValores(gastos)).value)
  }

  // ---------------------------------------------------------------- running total

  predicate AllDated(xs: seq<Gasto>)
  {
    forall i :: 0 <= i < |xs| ==> xs[i].data.Some?
  }

  /** Dated expenses in calendar order (ties in any order). */
  predicate SortedByDate(xs: seq<Gasto>)
    requires AllDated(xs)
  {
    forall i, j :: 0 <= i < j < |xs| ==> NotAfter(xs[i].data.value, xs[j].data.value)
  }

  /** A dated expense put in front of the first expense it is no later
      than: one step of an insertion sort. */
  function InsertByDate(xs: seq<Gasto>, g: Gasto): (r: seq<Gasto>)
    requires g.data.Some? && AllDated(xs)
    ensures AllDated(r)
    ensures multiset(r) == multiset(xs) + multiset{g}
  {
    if xs == [] then [g]
    else if NotAfter(g.data.value, xs[0].data.value) then [g] + xs
    else
      assert xs == [xs[0]] + xs[1..];
      [xs[0]] + InsertByDate(xs[1..], g)
  }

  /** Inserting into a sorted list keeps it sorted. */
  lemma {:induction false} InsertByDateSorted(xs: seq<Gasto>, g: Gasto)
    requires g.data.Some? && AllDated(xs) && SortedByDate(xs)
    ensures SortedByDate(InsertByDate(xs, g))
  {
    if xs == [] {
    } else if NotAfter(g.data.value, xs[0].data.value) {
      PutFirst(g, xs, xs);
    } else {
      var x, tail := xs[0], xs[1..];
      SortedTail(xs);
      assert NotAfter(x.data.value, g.data.value);
      InsertByDateSorted(tail, g);
      var rest := InsertByDate(tail, g);
      assert multiset(rest) == multiset(tail + [g]);
      PutFirst(x, rest, tail + [g]);
    }
  }

  /** The tail of a sorted list is sorted and no earlier than its head. */
  lemma SortedTail(xs: seq<Gasto>)
    requires |xs| > 0 && AllDated(xs) && SortedByDate(xs)
    ensures AllDated(xs[1..]) && SortedByDate(xs[1..])
    ensures forall y :: y in xs[1..] ==> NotAfter(xs[0].data.value, y.data.value)
  {
    forall y | y in xs[1..]
      ensures NotAfter(xs[0].data.value, y.data.value)
    {
      var j :| 0 <= j < |xs[1..]| && xs[1..][j] == y;
      assert xs[j + 1] == y;
    }
  }

  /** Inserting an expense adds its amount to the total. */
  lemma {:induction false} InsertByDateSum(xs: seq<Gasto>, g: Gasto)
    requires g.data.Some? && AllDated(xs)
    ensures Sum(GastoValores(InsertByDate(xs, g))) == Sum(GastoValores(xs)) + g.valor
  {
    if xs == [] {
      ValoresCons(g, []);
      SumCons(g.valor, []);
    } else if NotAfter(g.data.value, xs[0].data.value) {
      ValoresCons(g, xs);
      SumCons(g.valor, GastoValores(xs));
    } else {
      var x, tail := xs[0], xs[1..];
      assert xs == [x] + tail;
      var rest := InsertByDate(tail, g);
      InsertByDateSum(tail, g);
      ValoresCons(x, rest);
      ValoresCons(x, tail);
      SumCons(x.valor, GastoValores(rest));
      SumCons(x.valor, GastoValores(tail));
    }
  }

  lemma ValoresCons(x: Gasto, xs: seq<Gasto>)
    ensures GastoValores([x] + xs) == [x.valor] + GastoValores(xs)
  {
  }

  /** `x` can go in front of a sorted list of expenses drawn from `pool`
      when it is no later than every expense of `pool`. */
  lemma PutFirst(x: Gasto, rest: seq<Gasto>, pool: seq<Gasto>)
    requires x.data.Some? && AllDated(rest) && SortedByDate(rest)
    requires multiset(rest) == multiset(pool)
    requires forall y :: y in pool ==> y.data.Some? && NotAfter(x.data.value, y.data.value)
    ensures AllDated([x] + rest) && SortedByDate([x] + rest)
  {
    var r := [x] + rest;
    forall j | 1 <= j < |r|
      ensures NotAfter(x.data.value, r[j].data.value)
    {
      assert r[j] == rest[j - 1];
      assert rest[j - 1] in multiset(pool);
    }
    forall i, j | 0 <= i < j < |r|
      ensures NotAfter(r[i].data.value, r[j].data.value)
    {
      if i > 0 {
        assert r[i] == rest[i - 1] && r[j] == rest[j - 1];
      }
    }
  }

  /** `sort_values('Data')` on the dated expenses: a permutation in calendar
      order, with the same total. */
  function SortByDate(xs: seq<Gasto>): (r: seq<Gasto>)
    requires AllDated(xs)
    ensures AllDated(r) && SortedByDate(r)
    ensures multiset(r) == multiset(xs)
    ensures Sum(GastoValores(r)) == Sum(GastoValores(xs))
  {
    if xs == [] then []
    else
      var front := xs[..|xs| - 1];
      assert xs == front + [xs[|xs| - 1]];
      assert GastoValores(front) == GastoValores(xs)[..|xs| - 1];
      var sorted := SortByDate(front);
      InsertByDateSum(sorted, xs[|xs| - 1]);
      InsertByDateSorted(sorted, xs[|xs| - 1]);
      InsertByDate(sorted, xs[|xs| - 1])
  }

  /** The line chart of the personal tab: the expenses with a date sorted by
      date, and `cumsum()` of their amounts. The running total ends at the
      total of those expenses and, amounts being cleaned (never negative),
      never decreases. */
  method RunningTotal(gastos: seq<Gasto>) returns (sorted: seq<Gasto>, acc: seq<real>)
    ensures AllDated(sorted) && SortedByDate(sorted)
    ensures multiset(sorted) == multiset(WithDate(gastos))
    ensures |acc| == |sorted|
    ensures forall i :: 0 <= i < |acc| ==> acc[i] == Sum(GastoValores(sorted)[..i + 1])
    ensures |acc| > 0 ==> acc[|acc| - 1] == Sum(GastoValores(WithDate(gastos)))
    ensures (forall g :: g in gastos ==> g.valor >= 0.0) ==> forall i, j :: 0 <= i <= j < |acc| ==> acc[i] <= acc[j]
  {
    var dated := WithDate(gastos);
    assert AllDated(dated) by {
      forall i | 0 <= i < |dated|
        ensures dated[i].data.Some?
      {
        assert dated[i] in dated;
      }
    }
    sorted := SortByDate(dated);
    var valores := GastoValores(sorted);
    if forall g :: g in gastos ==> g.valor >= 0.0 {
      forall i | 0 <= i < |valores|
        ensures valores[i] >= 0.0
      {
        assert sorted[i] in multiset(dated);
      }
    }
    acc := CumulativeSums(valores);
  }
}
