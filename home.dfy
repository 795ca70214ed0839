/** The debt dashboard (`home.py`): the sheet's rows below `read_csv`'s
    header line lose four leading rows, the next one becomes the header,
    empty columns are dropped, repeated labels renamed and the instalment
    and payment-date columns converted; three debts are then totalled by
    status. */
module Home {
  import opened Wrappers
  import opened Strings
  import opened Decimal
  import opened Currency
  import opened Dates
  import opened Frames
  import opened Aggregates

  // ---------------------------------------------------------------- amounts

  /** `convert_to_float`: 0 for a missing cell; otherwise the text is
      stripped, loses `R$`, spaces and `.`, has `,` turned into `.` and goes
      to `float()`; a failure is absorbed as 0. The sign is kept. */
  function ConvertToFloat(c: Cell): (r: real)
    ensures c.None? ==> r == 0.0
  {
    if c.None? then 0.0
    else
      var parsed := ParseFloat(Normalize(Strip(c.value)));
      if parsed.Some? then parsed.value else 0.0
  }

  /** The first `convert_to_real` (line 19), shadowed by the one at line 40:
      its fallback writes `f'R$ {value:,.2f}'` with `,` and `.` exchanged
      through `*`, which is the Brazilian notation of the signed amount. */
  function ConvertToRealShadowed(m: Amount): (r: string)
    ensures r == BrazilianText(m)
  {
    FormatThenSwap(m, '*');
    SwapSeparators("R$ " + FormatGrouped(m), '*')
  }

  /** The `convert_to_real` in force: the same fallback exchanging the
      separators through `_`; it writes the same text as the one it
      shadows. */
  function ConvertToReal(m: Amount): (r: string)
    ensures r == BrazilianText(m)
    ensures r == ConvertToRealShadowed(m)
  {
    FormatThenSwap(m, '_');
    SwapSeparators("R$ " + FormatGrouped(m), '_')
  }

  /** Round trip: `convert_to_float` reads what `convert_to_real` writes as
      the amount itself, sign included. */
  lemma ConvertToFloatReadsReal(m: Amount)
    ensures ConvertToFloat(Some(ConvertToReal(m))) == Value(m)
  {
    BrazilianTextStripped(m);
    ReadBrazilianText(m);
  }

  /** The Brazilian notation starts with `R` and ends with a digit, so
      `strip()` leaves it alone. */
  lemma BrazilianTextStripped(m: Amount)
    ensures Strip(BrazilianText(m)) == BrazilianText(m)
  {
    BrazilianTextEdges(m);
    StripUnchanged(BrazilianText(m));
  }

  lemma BrazilianTextEdges(m: Amount)
    ensures var text := BrazilianText(m);
      |text| > 0 && text[0] == 'R' && IsDigit(text[|text| - 1])
  {
    var front := "R$ " + SignText(m.negative) + Group(NatToString(m.units), '.') + ",";
    JoinEdges(front, FixedDigits(m.hundredths, 2));
  }

  lemma JoinEdges(front: string, cents: string)
    requires |front| > 0 && front[0] == 'R' && |cents| == 2 && AllDigits(cents)
    ensures (front + cents)[0] == 'R' && IsDigit((front + cents)[|front + cents| - 1])
  {
    assert (front + cents)[|front + cents| - 1] == cents[1];
  }

  /** A text holding an ASCII character that neither the cleaning chain
      removes or rewrites (`R`, `$`, `,`) nor `float()` accepts anywhere is
      absorbed as 0 instead of failing. */
  lemma ConvertToFloatAbsorbs(s: string, c: char)
    requires c in s && ForeignToFloat(c) && c !in "R$,"
    ensures ConvertToFloat(Some(s)) == 0.0
  {
    var stripped := Strip(s);
    var i :| 0 <= i < |s| && s[i] == c;
    var at := StripKeepsChar(s, i);
    var noMarker := ReplaceAll(stripped, "R$", "");
    var noSpace := ReplaceAll(noMarker, " ", "");
    var noPoint := ReplaceAll(noSpace, ".", "");
    ReplaceKeeps(stripped, "R$", "", c);
    ReplaceKeeps(noMarker, " ", "", c);
    ReplaceKeeps(noSpace, ".", "", c);
    ReplaceKeeps(noPoint, ",", ".", c);
    var t := Normalize(stripped);
    var j :| 0 <= j < |t| && t[j] == c;
    ParseFloatRejectsForeignChar(t, j);
  }

  // ---------------------------------------------------------------- processing

  /** A cell of the processed table: untouched text, an amount from
      `convert_to_float`, or a date from `to_datetime` (`None` for `NaT`). */
  datatype Field = Plain(cell: Cell) | Money(amount: real) | When(date: Option<Day>)

  /** The processed table: its labels and rows of fields. */
  datatype Processed = Processed(labels: seq<Cell>, rows: seq<seq<Field>>)

  /** `apply(convert_to_float)` on one cell of a text column. */
  function ToMoney(f: Field): Field
  {
    match f
    case Plain(c) => Money(ConvertToFloat(c))
    case Money(x) => Money(x)
    case When(d) => When(d)
  }

  /** `to_datetime(..., format='%d/%m/%Y', errors='coerce')` on one cell: a
      text is parsed; a number becomes text like `1234.0`, which the format
      rejects, so `NaT`. */
  function ToDate(f: Field): Field
  {
    match f
    case Plain(c) => When(ParseDateCell(c))
    case Money(_) => When(None)
    case When(d) => When(d)
  }

  /** What processing makes of a cell in the column headed `heading`: an
      instalment column (`parcelas` in its label) goes through
      `convert_to_float`, then a payment-date column (`data de pgto` in its
      label) through `to_datetime`; every other column is left alone. */
  function Converted(heading: string, c: Cell): (r: Field)
    ensures !Occurs(heading, "parcelas") && !Occurs(heading, "data de pgto") ==> r == Plain(c)
    ensures Occurs(heading, "parcelas") && !Occurs(heading, "data de pgto") ==> r == Money(ConvertToFloat(c))
    ensures !Occurs(heading, "parcelas") && Occurs(heading, "data de pgto") ==> r == When(ParseDateCell(c))
    ensures Occurs(heading, "parcelas") && Occurs(heading, "data de pgto") ==> r == When(None)
  {
    var first := if Occurs(heading, "parcelas") then ToMoney(Plain(c)) else Plain(c);
    if Occurs(heading, "data de pgto") then ToDate(first) else first
  }

  /** The two passes of `process_dataframe` over one cell, told whether
      its column was selected by each, give `Converted` of it. */
  lemma ConvertedSteps(heading: string, c: Cell, money: bool, date: bool)
    requires money <==> Occurs(heading, "parcelas")
    requires date <==> Occurs(heading, "data de pgto")
    ensures var m := if money then ToMoney(Plain(c)) else Plain(c);
      (if date then ToDate(m) else m) == Converted(heading, c)
  {
  }

  /** `df[col] = df[col].apply(op)`: column `col` of every row through `op`,
      the other columns untouched. */
  function MapColumn(data: seq<seq<Field>>, col: nat, op: Field -> Field): (r: seq<seq<Field>>)
    requires forall i :: 0 <= i < |data| ==> col < |data[i]|
    ensures |r| == |data|
    ensures forall i :: 0 <= i < |data| ==> |r[i]| == |data[i]|
    ensures forall i, j :: 0 <= i < |data| && 0 <= j < |data[i]| ==>
      r[i][j] == if j == col then op(data[i][j]) else data[i][j]
  {
    seq(|data|, i requires 0 <= i < |data| => data[i][col := op(data[i][col])])
  }

  /** The loop `for col in cols: df[col] = df[col].apply(op)` over distinct
      columns: the listed columns go through `op` once, the others are
      left alone. */
  method ApplyToColumns(data: seq<seq<Field>>, width: nat, cols: seq<nat>, op: Field -> Field)
    returns (r: seq<seq<Field>>)
    requires forall i :: 0 <= i < |data| ==> |data[i]| == width
    requires forall k :: 0 <= k < |cols| ==> cols[k] < width
    requires forall k, l :: 0 <= k < l < |cols| ==> cols[k] < cols[l]
    ensures |r| == |data|
    ensures forall i :: 0 <= i < |data| ==> |r[i]| == width
    ensures forall i, j :: 0 <= i < |data| && 0 <= j < width ==>
      r[i][j] == if j in cols then op(data[i][j]) else data[i][j]
  {
    r := data;
    for k := 0 to |cols|
      invariant |r| == |data|
      invariant forall i :: 0 <= i < |data| ==> |r[i]| == width
      invariant forall i, j :: 0 <= i < |data| && 0 <= j < width ==>
        r[i][j] == if j in cols[..k] then op(data[i][j]) else data[i][j]
    {
      assert cols[..k + 1] == cols[..k] + [cols[k]];
      assert cols[k] !in cols[..k];
      r := MapColumn(r, cols[k], op);
    }
    assert cols[..|cols|] == cols;
  }

  /** The table of the cells as read, before any column is converted. */
  function AsFields(rows: seq<Row>): (r: seq<seq<Field>>)
    ensures |r| == |rows|
    ensures forall i :: 0 <= i < |rows| ==> |r[i]| == |rows[i]|
    ensures forall i, j :: 0 <= i < |rows| && 0 <= j < |rows[i]| ==> r[i][j] == Plain(rows[i][j])
  {
    seq(|rows|, i requires 0 <= i < |rows| => seq(|rows[i]|, j requires 0 <= j < |rows[i]| => Plain(rows[i][j])))
  }

  /** `table` is the sheet's rows below the header line `read_csv`
      consumes. Its four leading rows are skipped, the next one (the
      sheet's sixth line) is made the header and the empty columns are
      dropped; `None` when no row is left for the header (`iloc[0]`
      raises). */
  function Cleaned(table: seq<Row>, width: nat): (r: Option<Frame>)
    requires Uniform(table, width)
    ensures r.None? <==> |table| <= 4
    ensures r.Some? ==> Rectangular(r.value) && |r.value.rows| == |table| - 5
    ensures r.Some? ==> r.value == DropEmptyColumns(Frame(table[4], table[5..]))
  {
    if |table| <= 4 then None
    else
      var f := Frame(table[4], table[5..]);
      assert Rectangular(f);
      Some(DropEmptyColumns(f))
  }

  /** The cleaning in terms of the table read below `read_csv`'s header
      line: the kept columns are exactly those holding a value in some row
      after the fifth, in order; the labels are the fifth row's cells (the
      sheet's sixth line) at those columns, and data row `i` is row `i + 5`
      of the table at those columns. */
  lemma CleanedSpec(table: seq<Row>, width: nat)
    requires Uniform(table, width) && |table| > 4
    ensures var f := Cleaned(table, width).value;
      var cols := KeptFrom(table[5..], width, 0);
      (forall j :: 0 <= j < width ==> (j in cols <==> exists i :: 5 <= i < |table| && table[i][j].Some?)) &&
      |f.labels| == |cols| &&
      (forall k :: 0 <= k < |cols| ==> f.labels[k] == table[4][cols[k]]) &&
      (forall i, k :: 0 <= i < |f.rows| && 0 <= k < |cols| ==> f.rows[i][k] == table[i + 5][cols[k]])
  {
    var g := Frame(table[4], table[5..]);
    assert Rectangular(g);
    KeptCells(g);
    var cols := KeptFrom(table[5..], width, 0);
    forall j | 0 <= j < width
      ensures j in cols <==> exists i :: 5 <= i < |table| && table[i][j].Some?
    {
      ValueAfterHeader(table, width, j);
    }
  }

  /** A column holds a value below the header exactly when some row after
      the fifth holds one in it. */
  lemma ValueAfterHeader(table: seq<Row>, width: nat, j: nat)
    requires Uniform(table, width) && |table| > 4 && j < width
    ensures HasValue(table[5..], j) <==> exists i :: 5 <= i < |table| && table[i][j].Some?
  {
    if HasValue(table[5..], j) {
      var i :| 0 <= i < |table[5..]| && j < |table[5..][i]| && table[5..][i][j].Some?;
      assert table[i + 5][j].Some?;
    }
    if exists i :: 5 <= i < |table| && table[i][j].Some? {
      var i :| 5 <= i < |table| && table[i][j].Some?;
      assert table[5..][i - 5] == table[i];
    }
  }

  /** Some present label containing `pat` occurs more than once, so that
      `df[col]` selects a table rather than a column: `apply` then hands
      whole columns to `convert_to_float`, whose `pd.isna` test outside its
      `try` raises, and `to_datetime` refuses a table without
      year/month/day columns. */
  predicate Ambiguous(labels: seq<Cell>, pat: string)
  {
    exists j :: 0 <= j < |labels| && labels[j].Some? && Occurs(labels[j].value, pat) && Count(labels, labels[j]) > 1
  }

  /** Whether one of the selected columns has a repeated label. */
  function AnyRepeated(labels: seq<Cell>, cols: seq<nat>): (b: bool)
    requires forall k :: 0 <= k < |cols| ==> cols[k] < |labels|
    ensures b <==> exists k :: 0 <= k < |cols| && Count(labels, labels[cols[k]]) > 1
  {
    if cols == [] then false
    else Count(labels, labels[cols[0]]) > 1 || AnyRepeated(labels, cols[1..])
  }

  /** The columns `Matching` selects have a repeated label exactly when the
      labels are ambiguous for that pattern. */
  lemma RepeatedSelected(labels: seq<Cell>, pat: string, cols: seq<nat>)
    requires Matching(labels, pat) == Some(cols)
    ensures AnyRepeated(labels, cols) <==> Ambiguous(labels, pat)
  {
    if AnyRepeated(labels, cols) {
      var k :| 0 <= k < |cols| && Count(labels, labels[cols[k]]) > 1;
      assert cols[k] in cols;
    }
    if Ambiguous(labels, pat) {
      var j :| 0 <= j < |labels| && labels[j].Some? && Occurs(labels[j].value, pat) && Count(labels, labels[j]) > 1;
      assert j in cols;
      var k :| 0 <= k < |cols| && cols[k] == j;
    }
  }

  /** `process_dataframe`. Any exception inside gives the empty table,
      shown as `None`: a table of four rows or fewer (no header row), a
      label left missing after the renaming (`'parcelas' in nan` raises),
      or a label containing `parcelas` or `data de pgto` that the renaming
      left repeated. Otherwise the labels are the renamed ones and every
      cell is what `Converted` makes of it. */
  method ProcessDataframe(table: seq<Row>, width: nat) returns (r: Option<Processed>)
    requires Uniform(table, width)
    ensures Cleaned(table, width).None? ==> r.None?
    ensures Cleaned(table, width).Some? ==>
      var f := Cleaned(table, width).value;
      var labels := RenameDuplicates(f.labels);
      (r.None? <==> None in labels || Ambiguous(labels, "parcelas") || Ambiguous(labels, "data de pgto")) &&
      (r.Some? ==>
        r.value.labels == labels && |r.value.rows| == |f.rows| &&
        (forall i :: 0 <= i < |f.rows| ==> |r.value.rows[i]| == |labels|) &&
        (forall i, j :: 0 <= i < |f.rows| && 0 <= j < |labels| ==>
          r.value.rows[i][j] == Converted(labels[j].value, f.rows[i][j])))
  {
    var cleaned := Cleaned(table, width);
    if cleaned.None? {
      return None;
    }
    var f := cleaned.value;
    var labels := RenameDuplicates(f.labels);
    var parcelaCols := Matching(labels, "parcelas");
    if parcelaCols.None? {
      return None;
    }
    var dataCols := Matching(labels, "data de pgto");
    var repeated := AnyRepeated(labels, parcelaCols.value) || AnyRepeated(labels, dataCols.value);
    assert repeated <==> Ambiguous(labels, "parcelas") || Ambiguous(labels, "data de pgto") by {
      RepeatedSelected(labels, "parcelas", parcelaCols.value);
      RepeatedSelected(labels, "data de pgto", dataCols.value);
    }
    if repeated {
      return None;
    }
    var money := ApplyToColumns(AsFields(f.rows), |labels|, parcelaCols.value, ToMoney);
    var data := ApplyToColumns(money, |labels|, dataCols.value, ToDate);
    forall i, j | 0 <= i < |f.rows| && 0 <= j < |labels|
      ensures data[i][j] == Converted(labels[j].value, f.rows[i][j])
    {
      ConvertedSteps(labels[j].value, f.rows[i][j], j in parcelaCols.value, j in dataCols.value);
    }
    r := Some(Processed(labels, data));
  }

  // ---------------------------------------------------------------- debts

  /** The figures of one debt; `porcentagem` is `None` when the total is 0,
      where the division gives NaN or infinity. */
  datatype Totals = Totals(total: real, pago: real, pendente: real, porcentagem: Option<real>)

  /** The sum of the amounts whose status cell is exactly `word`. */
  function SumWhere(amounts: seq<real>, status: seq<Field>, word: string): real
    requires |amounts| == |status|
  {
    if amounts == [] then 0.0
    else (if status[0] == Plain(Some(word)) then amounts[0] else 0.0) + SumWhere(amounts[1..], status[1..], word)
  }

  /** The status sum of two runs of rows one after the other is the sum of
      their status sums. */
  lemma {:induction false} SumWhereAppend(a: seq<real>, sa: seq<Field>, b: seq<real>, sb: seq<Field>, word: string)
    requires |a| == |sa| && |b| == |sb|
    ensures SumWhere(a + b, sa + sb, word) == SumWhere(a, sa, word) + SumWhere(b, sb, word)
  {
    if a != [] {
      assert (a + b)[1..] == a[1..] + b && (sa + sb)[1..] == sa[1..] + sb;
      SumWhereAppend(a[1..], sa[1..], b, sb, word);
    } else {
      assert a + b == b && sa + sb == sb;
    }
  }

  /** Rows all marked `word` add up to the whole column; rows none of which
      is marked `word` add up to nothing. */
  lemma {:induction false} SumWhereUniform(amounts: seq<real>, status: seq<Field>, word: string)
    requires |amounts| == |status|
    ensures (forall i :: 0 <= i < |status| ==> status[i] == Plain(Some(word))) ==>
      SumWhere(amounts, status, word) == Sum(amounts)
    ensures (forall i :: 0 <= i < |status| ==> status[i] != Plain(Some(word))) ==>
      SumWhere(amounts, status, word) == 0.0
  {
    if amounts != [] {
      SumWhereUniform(amounts[1..], status[1..], word);
      SumCons(amounts[0], amounts[1..]);
      assert [amounts[0]] + amounts[1..] == amounts;
      if forall i :: 0 <= i < |status| ==> status[i] == Plain(Some(word)) {
        assert forall i :: 0 <= i < |status[1..]| ==> status[1..][i] == status[i + 1];
      }
      if forall i :: 0 <= i < |status| ==> status[i] != Plain(Some(word)) {
        assert forall i :: 0 <= i < |status[1..]| ==> status[1..][i] == status[i + 1];
      }
    }
  }

  /** The sum of the amounts whose status is neither `PAGO` nor `PENDENTE`. */
  function SumOther(amounts: seq<real>, status: seq<Field>): real
    requires |amounts| == |status|
  {
    if amounts == [] then 0.0
    else
      (if status[0] != Plain(Some("PAGO")) && status[0] != Plain(Some("PENDENTE")) then amounts[0] else 0.0) +
      SumOther(amounts[1..], status[1..])
  }

  /** One debt's entry of `totais`: the column total, the total of the rows
      marked `PAGO`, that of the rows marked `PENDENTE`, and the share paid
      in percent. */
  function DebtTotals(amounts: seq<real>, status: seq<Field>): (t: Totals)
    requires |amounts| == |status|
    ensures t.total == Sum(amounts)
    ensures t.pago == SumWhere(amounts, status, "PAGO")
    ensures t.pendente == SumWhere(amounts, status, "PENDENTE")
    ensures t.porcentagem.Some? <==> t.total != 0.0
    ensures t.porcentagem.Some? ==> t.porcentagem.value * t.total == t.pago * 100.0
  {
    var total := SumFront(amounts);
    var pago := SumWhere(amounts, status, "PAGO");
    var pendente := SumWhere(amounts, status, "PENDENTE");
    Totals(total, pago, pendente, if total != 0.0 then Some(pago / total * 100.0) else None)
  }

  /** `Series.sum()` taken from the front, the order the partition lemmas
      follow. */
  function SumFront(xs: seq<real>): (r: real)
    ensures r == Sum(xs)
  {
    if xs == [] then 0.0
    else
      SumCons(xs[0], xs[1..]);
      assert [xs[0]] + xs[1..] == xs;
      xs[0] + SumFront(xs[1..])
  }

  /** Every row counts toward the total, and toward `pago` or `pendente`
      only when its status is exactly that word: the total is the two plus
      the rows of any other status. */
  lemma {:induction false} DebtPartition(amounts: seq<real>, status: seq<Field>)
    requires |amounts| == |status|
    ensures var t := DebtTotals(amounts, status);
      t.total == t.pago + t.pendente + SumOther(amounts, status)
  {
    if amounts != [] {
      DebtPartition(amounts[1..], status[1..]);
    }
  }

  /** Without negative amounts the other rows add nothing negative, so paid
      and pending together never exceed the total, and the share paid lies
      between 0 and 100. */
  lemma DebtShareBounds(amounts: seq<real>, status: seq<Field>)
    requires |amounts| == |status| && NonNegative(amounts)
    ensures var t := DebtTotals(amounts, status);
      0.0 <= t.pago && 0.0 <= t.pendente && t.pago + t.pendente <= t.total &&
      (t.porcentagem.Some? ==> 0.0 <= t.porcentagem.value <= 100.0)
  {
    DebtPartition(amounts, status);
    WhereNonNegative(amounts, status, "PAGO");
    WhereNonNegative(amounts, status, "PENDENTE");
    OtherNonNegative(amounts, status);
    var t := DebtTotals(amounts, status);
    if t.porcentagem.Some? {
      ShareWithin(t.pago, t.total);
    }
  }

  /** A part between 0 and the whole is between 0 and 100 percent of it. */
  lemma ShareWithin(part: real, whole: real)
    requires 0.0 <= part <= whole && whole != 0.0
    ensures 0.0 <= part / whole * 100.0 <= 100.0
  {
    assert part / whole <= 1.0 by {
      assert part / whole * whole == part;
    }
  }

  lemma {:induction false} WhereNonNegative(amounts: seq<real>, status: seq<Field>, word: string)
    requires |amounts| == |status| && NonNegative(amounts)
    ensures SumWhere(amounts, status, word) >= 0.0
  {
    if amounts != [] {
      WhereNonNegative(amounts[1..], status[1..], word);
    }
  }

  lemma {:induction false} OtherNonNegative(amounts: seq<real>, status: seq<Field>)
    requires |amounts| == |status| && NonNegative(amounts)
    ensures SumOther(amounts, status) >= 0.0
  {
    if amounts != [] {
      OtherNonNegative(amounts[1..], status[1..]);
    }
  }

  /** The debts of `dividas`, in order: name, instalment column, status
      column. */
  const Dividas: seq<(string, string, string)> :=
    [("Capital de Giro", "parcelas_0", "status_2"), ("Ducato", "parcelas_3", "status_5"), ("Muck", "parcelas_6", "status_8")]

  /** The instalment column of each debt is converted to amounts and its
      status column is left as text, so the totals read amounts and compare
      text. */
  lemma DebtColumnsConverted(k: nat, c: Cell)
    requires k < |Dividas|
    ensures Converted(Dividas[k].1, c) == Money(ConvertToFloat(c))
    ensures Converted(Dividas[k].2, c) == Plain(c)
  {
    var amount, status := Dividas[k].1, Dividas[k].2;
    assert OccursAt(amount, "parcelas", 0);
    MissingCharNoOccurrence(amount, "data de pgto", 0);
    MissingCharNoOccurrence(status, "parcelas", 0);
    MissingCharNoOccurrence(status, "data de pgto", 0);
  }

  /** The position of the one column labelled `name`: `None` when there is
      none (`KeyError`) or more than one (the selection is then a table and
      the figures cannot be formed). */
  function ColumnAt(labels: seq<Cell>, name: string): (r: Option<nat>)
    ensures r.Some? <==> Count(labels, Some(name)) == 1
    ensures r.Some? ==> r.value < |labels| && labels[r.value] == Some(name)
  {
    if Count(labels, Some(name)) == 1 then Some(FirstAt(labels, Some(name))) else None
  }

  /** The first position of a label known to be there. */
  function FirstAt(labels: seq<Cell>, x: Cell): (k: nat)
    requires x in labels
    ensures k < |labels| && labels[k] == x
  {
    if labels[0] == x then 0 else 1 + FirstAt(labels[1..], x)
  }

  /** The amounts of a column (the instalment columns hold `Money`). */
  function AmountOf(f: Field): real
  {
    if f.Money? then f.amount else 0.0
  }

  /** Every row has one field per label. */
  predicate Shaped(p: Processed)
  {
    forall i :: 0 <= i < |p.rows| ==> |p.rows[i]| == |p.labels|
  }

  function AmountColumn(p: Processed, j: nat): (r: seq<real>)
    requires Shaped(p) && j < |p.labels|
    ensures |r| == |p.rows|
  {
    seq(|p.rows|, i requires 0 <= i < |p.rows| => AmountOf(p.rows[i][j]))
  }

  function FieldColumn(p: Processed, j: nat): (r: seq<Field>)
    requires Shaped(p) && j < |p.labels|
    ensures |r| == |p.rows|
  {
    seq(|p.rows|, i requires 0 <= i < |p.rows| => p.rows[i][j])
  }

  /** Both columns of debt `k` can be selected. */
  predicate DebtColumns(p: Processed, k: nat)
    requires k < |Dividas|
  {
    ColumnAt(p.labels, Dividas[k].1).Some? && ColumnAt(p.labels, Dividas[k].2).Some?
  }

  /** The figures of debt `k` once both its columns are found. */
  function DebtEntry(p: Processed, k: nat): (string, Totals)
    requires Shaped(p) && k < |Dividas| && DebtColumns(p, k)
  {
    var amounts := AmountColumn(p, ColumnAt(p.labels, Dividas[k].1).value);
    var status := FieldColumn(p, ColumnAt(p.labels, Dividas[k].2).value);
    (Dividas[k].0, DebtTotals(amounts, status))
  }

  /** The loop that fills `totais` debt by debt; a missing column raises a
      `KeyError`, which the script's outer handler turns into an error
      message: `None`. */
  method ComputeTotals(p: Processed) returns (r: Option<seq<(string, Totals)>>)
    requires Shaped(p)
    ensures r.None? <==> exists k :: 0 <= k < |Dividas| && !DebtColumns(p, k)
    ensures r.Some? ==> |r.value| == |Dividas| && forall k :: 0 <= k < |Dividas| ==> r.value[k] == DebtEntry(p, k)
  {
    var totais: seq<(string, Totals)> := [];
    for k := 0 to |Dividas|
      invariant |totais| == k
      invariant forall q :: 0 <= q < k ==> DebtColumns(p, q) && totais[q] == DebtEntry(p, q)
    {
      var name, col, statusCol := Dividas[k].0, Dividas[k].1, Dividas[k].2;
      var amountAt := ColumnAt(p.labels, col);
      var statusAt := ColumnAt(p.labels, statusCol);
      if amountAt.None? || statusAt.None? {
        assert !DebtColumns(p, k);
        return None;
      }
      var amounts := AmountColumn(p, amountAt.value);
      var status := FieldColumn(p, statusAt.value);
      totais := totais + [(name, DebtTotals(amounts, status))];
    }
    r := Some(totais);
  }

  // ---------------------------------------------------------------- overview

  /** `total_geral`, `total_pendente` and `total_pago`: the sums of the
      debts' own figures. */
  function Overall(totais: seq<(string, Totals)>): (r: (real, real, real))
  {
    if totais == [] then (0.0, 0.0, 0.0)
    else
      var rest := Overall(totais[1..]);
      (totais[0].1.total + rest.0, totais[0].1.pendente + rest.1, totais[0].1.pago + rest.2)
  }

  /** When every debt's paid and pending figures fit in its total, the
      overall ones fit in the overall total. */
  lemma {:induction false} OverallWithinTotal(totais: seq<(string, Totals)>)
    requires forall k :: 0 <= k < |totais| ==>
      0.0 <= totais[k].1.pago && 0.0 <= totais[k].1.pendente && totais[k].1.pago + totais[k].1.pendente <= totais[k].1.total
    ensures var r := Overall(totais); 0.0 <= r.1 && 0.0 <= r.2 && r.1 + r.2 <= r.0
  {
    if totais != [] {
      OverallWithinTotal(totais[1..]);
    }
  }

  /** `Percentual Pago`: the overall paid share in percent; `None` when the
      overall total is 0 (shown as `nan%`). */
  function OverallShare(totais: seq<(string, Totals)>): (r: Option<real>)
    ensures r.Some? <==> Overall(totais).0 != 0.0
    ensures r.Some? ==> r.value * Overall(totais).0 == Overall(totais).2 * 100.0
  {
    var o := Overall(totais);
    if o.0 != 0.0 then Some(o.2 / o.0 * 100.0) else None
  }

  /** Python's `int(x)` on a number: truncation toward zero. */
  function Truncate(x: real): (n: int)
    ensures x >= 0.0 ==> n as real <= x < n as real + 1.0
    ensures x < 0.0 ==> n as real - 1.0 < x <= n as real
  {
    if x >= 0.0 then x.Floor else -((-x).Floor)
  }

  /** The progress bar of one debt: `int(porcentagem)`, handed to
      `st.progress` as `progress/100`. `int` raises on NaN or infinity, and
      `st.progress` refuses a fraction outside 0.0..1.0, that is a whole
      percentage outside 0..100; either way the script's outer handler
      takes over: `None`. */
  function Progress(t: Totals): (r: Option<int>)
    ensures r.Some? <==> t.porcentagem.Some? && 0 <= Truncate(t.porcentagem.value) <= 100
    ensures r.Some? ==> r.value == Truncate(t.porcentagem.value) && 0 <= r.value <= 100
    ensures r.Some? && t.porcentagem.value >= 0.0 ==>
      r.value as real <= t.porcentagem.value < r.value as real + 1.0
  {
    if t.porcentagem.None? then None
    else
      var progress := Truncate(t.porcentagem.value);
      if 0 <= progress <= 100 then Some(progress) else None
  }

  /** With no negative instalment the bar is never refused: a debt's
      progress is defined exactly when its total is not 0, and it is then a
      whole percentage between 0 and 100. */
  lemma ProgressBounds(amounts: seq<real>, status: seq<Field>)
    requires |amounts| == |status| && NonNegative(amounts)
    ensures var p := Progress(DebtTotals(amounts, status));
      (p.Some? <==> Sum(amounts) != 0.0) && (p.Some? ==> 0 <= p.value <= 100)
  {
    DebtShareBounds(amounts, status);
  }

  /** `convert_to_float` keeps the sign, so a negative instalment can push
      the share out of range: a refund of 100 marked `PAGO` against 200
      pending gives -100 percent, which `st.progress` refuses. */
  lemma ProgressRefusesNegativeShare()
    ensures var t := DebtTotals([-100.0, 200.0], [Plain(Some("PAGO")), Plain(Some("PENDENTE"))]);
      t.porcentagem == Some(-100.0) && Progress(t) == None
  {
    var amounts := [-100.0, 200.0];
    var status := [Plain(Some("PAGO")), Plain(Some("PENDENTE"))];
    assert amounts[1..] == [200.0] && status[1..] == [Plain(Some("PENDENTE"))];
    assert amounts[1..][1..] == [] && status[1..][1..] == [];
    assert SumWhere(amounts, status, "PAGO") == -100.0;
    assert SumFront(amounts) == 100.0;
  }
}
