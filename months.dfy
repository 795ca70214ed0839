/** `traduzir_mes`: the month names that `strftime('%B')` writes in English
    are replaced, one `str.replace` per entry of the month dictionary, by
    their Portuguese names. */
module Months {
  import opened Strings
  import opened Dates

  /** The Portuguese name the dictionary gives month `j + 1`. */
  function PortugueseName(j: nat): string
    requires j < 12
  {
    match j
    case 0 => "Janeiro"
    case 1 => "Fevereiro"
    case 2 => "Março"
    case 3 => "Abril"
    case 4 => "Maio"
    case 5 => "Junho"
    case 6 => "Julho"
    case 7 => "Agosto"
    case 8 => "Setembro"
    case 9 => "Outubro"
    case 10 => "Novembro"
    case 11 => "Dezembro"
  }

  /** One pass of the loop: month `j + 1`'s English name replaced
      everywhere by its Portuguese name. */
  function Step(text: string, j: nat): string
    requires j < 12
  {
    ReplaceAll(text, MonthName(j), PortugueseName(j))
  }

  /** The text after the first `n` passes, January first (the dictionary's
      insertion order). */
  function Translated(text: string, n: nat): string
    requires n <= 12
  {
    if n == 0 then text else Step(Translated(text, n - 1), n - 1)
  }

  /** `traduzir_mes(texto)`: `texto` rebound once per dictionary entry. */
  method TraduzirMes(texto: string) returns (r: string)
    ensures r == Translated(texto, 12)
  {
    r := texto;
    for i := 0 to 12
      invariant r == Translated(texto, i)
    {
      r := ReplaceAll(r, MonthName(i), PortugueseName(i));
    }
  }

  /** Passes `lo` to `hi - 1` leave alone a text that none of their English
      names occurs in. */
  lemma {:induction false} PassesSkip(text: string, lo: nat, hi: nat, v: string)
    requires lo <= hi <= 12 && Translated(text, lo) == v
    requires forall j :: lo <= j < hi ==> !Occurs(v, MonthName(j))
    ensures Translated(text, hi) == v
    decreases hi
  {
    if lo < hi {
      PassesSkip(text, lo, hi - 1, v);
      ReplaceAbsent(v, MonthName(hi - 1), PortugueseName(hi - 1));
    }
  }

  /** A text that contains no English month name comes back unchanged. */
  lemma NoMonthUnchanged(text: string)
    requires forall j :: 0 <= j < 12 ==> !Occurs(text, MonthName(j))
    ensures Translated(text, 12) == text
  {
    PassesSkip(text, 0, 12, text);
  }

  /** Month `m + 1`'s own pass turns `English/year` into `Portuguese/year`. */
  lemma Swapped(m: nat, year: string)
    requires m < 12 && AllDigits(year)
    ensures Step(MonthName(m) + "/" + year, m) == PortugueseName(m) + "/" + year
  {
    var name, rep, rest := MonthName(m), PortugueseName(m), "/" + year;
    assert name[0] !in rest;
    MissingCharNoOccurrence(rest, name, 0);
    ReplaceAbsent(rest, name, rep);
    var s := name + rest;
    assert s[..|name|] == name && s[|name|..] == rest;
    assert ReplaceAll(s, name, rep) == rep + rest;
    assert name + "/" + year == s;
    assert rep + "/" + year == rep + rest;
  }

  /** The passes before month `m + 1`'s leave `English/year` alone, its own
      pass translates it, and the passes after it leave `Portuguese/year`
      alone. */
  lemma TranslatedLabel(m: nat, year: string)
    requires m < 12 && AllDigits(year)
    requires forall j :: 0 <= j < m ==> !Occurs(MonthName(m) + "/" + year, MonthName(j))
    requires forall j :: m < j < 12 ==> !Occurs(PortugueseName(m) + "/" + year, MonthName(j))
    ensures Translated(MonthName(m) + "/" + year, 12) == PortugueseName(m) + "/" + year
  {
    var u, t := MonthName(m) + "/" + year, PortugueseName(m) + "/" + year;
    PassesSkip(u, 0, m, u);
    Swapped(m, year);
    PassesSkip(u, m + 1, 12, t);
  }

  /** The label of a date, `%B/%Y` in English, becomes the Portuguese month
      name with the same year. */
  lemma TranslateMonthYear(d: Date)
    requires Valid(d)
    ensures Translated(MonthYear(d), 12) == PortugueseName(d.month - 1) + "/" + FixedDigits(d.year, 4)
  {
    var year := FixedDigits(d.year, 4);
    match d.month {
    case 1 => JanuaryClues(year);
    case 2 => FebruaryClues(year);
    case 3 => MarchClues(year);
    case 4 => AprilClues(year);
    case 5 => MayClues(year);
    case 6 => JuneClues(year);
    case 7 => JulyClues(year);
    case 8 => AugustClues(year);
    case 9 => SeptemberClues(year);
    case 10 => OctoberClues(year);
    case 11 => NovemberClues(year);
    case 12 => DecemberClues(year);
    }
    TranslatedLabel(d.month - 1, year);
  }

  /** The worked example: `January/2024` becomes `Janeiro/2024`. */
  lemma TranslateExample()
    ensures Translated("January/2024", 12) == "Janeiro/2024"
  {
    JanuaryClues("2024");
    TranslatedLabel(0, "2024");
    assert "January" + "/" + "2024" == "January/2024";
    assert "Janeiro" + "/" + "2024" == "Janeiro/2024";
  }

  /** A word with a letter that `name` lacks does not occur in `name/year`. */
  lemma Absent(name: string, year: string, w: string, c: char)
    requires AllDigits(year)
    requires c in w && c !in name && !IsDigit(c) && c != '/'
    ensures !Occurs(name + "/" + year, w)
  {
    var k :| 0 <= k < |w| && w[k] == c;
    MissingCharNoOccurrence(name + "/" + year, w, k);
  }

  lemma JanuaryClues(year: string)
    requires AllDigits(year)
    ensures forall j :: 0 < j < 12 ==> !Occurs("Janeiro" + "/" + year, MonthName(j))
  {
    forall j | 0 < j < 12
      ensures !Occurs("Janeiro" + "/" + year, MonthName(j))
    {
      match j
      case 1 => Absent("Janeiro", year, "February", 'F');
      case 2 => Absent("Janeiro", year, "March", 'M');
      case 3 => Absent("Janeiro", year, "April", 'A');
      case 4 => Absent("Janeiro", year, "May", 'M');
      case 5 => Absent("Janeiro", year, "June", 'u');
      case 6 => Absent("Janeiro", year, "July", 'u');
      case 7 => Absent("Janeiro", year, "August", 'A');
      case 8 => Absent("Janeiro", year, "September", 'S');
      case 9 => Absent("Janeiro", year, "October", 'O');
      case 10 => Absent("Janeiro", year, "November", 'N');
      case 11 => Absent("Janeiro", year, "December", 'D');
    }
  }

  lemma FebruaryClues(year: string)
    requires AllDigits(year)
    ensures forall j :: 0 <= j < 1 ==> !Occurs("February" + "/" + year, MonthName(j))
    ensures forall j :: 1 < j < 12 ==> !Occurs("Fevereiro" + "/" + year, MonthName(j))
  {
    forall j | 0 <= j < 1
      ensures !Occurs("February" + "/" + year, MonthName(j))
    {
      match j
      case 0 => Absent("February", year, "January", 'J');
    }
    forall j | 1 < j < 12
      ensures !Occurs("Fevereiro" + "/" + year, MonthName(j))
    {
      match j
      case 2 => Absent("Fevereiro", year, "March", 'M');
      case 3 => Absent("Fevereiro", year, "April", 'A');
      case 4 => Absent("Fevereiro", year, "May", 'M');
      case 5 => Absent("Fevereiro", year, "June", 'J');
      case 6 => Absent("Fevereiro", year, "July", 'J');
      case 7 => Absent("Fevereiro", year, "August", 'A');
      case 8 => Absent("Fevereiro", year, "September", 'S');
      case 9 => Absent("Fevereiro", year, "October", 'O');
      case 10 => Absent("Fevereiro", year, "November", 'N');
      case 11 => Absent("Fevereiro", year, "December", 'D');
    }
  }

  lemma MarchClues(year: string)
    requires AllDigits(year)
    ensures forall j :: 0 <= j < 2 ==> !Occurs("March" + "/" + year, MonthName(j))
    ensures forall j :: 2 < j < 12 ==> !Occurs("Março" + "/" + year, MonthName(j))
  {
    forall j | 0 <= j < 2
      ensures !Occurs("March" + "/" + year, MonthName(j))
    {
      match j
      case 0 => Absent("March", year, "January", 'J');
      case 1 => Absent("March", year, "February", 'F');
    }
    forall j | 2 < j < 12
      ensures !Occurs("Março" + "/" + year, MonthName(j))
    {
      match j
      case 3 => Absent("Março", year, "April", 'A');
      case 4 => Absent("Março", year, "May", 'y');
      case 5 => Absent("Março", year, "June", 'J');
      case 6 => Absent("Março", year, "July", 'J');
      case 7 => Absent("Março", year, "August", 'A');
      case 8 => Absent("Março", year, "September", 'S');
      case 9 => Absent("Março", year, "October", 'O');
      case 10 => Absent("Março", year, "November", 'N');
      case 11 => Absent("Março", year, "December", 'D');
    }
  }

  lemma AprilClues(year: string)
    requires AllDigits(year)
    ensures forall j :: 0 <= j < 3 ==> !Occurs("April" + "/" + year, MonthName(j))
    ensures forall j :: 3 < j < 12 ==> !Occurs("Abril" + "/" + year, MonthName(j))
  {
    forall j | 0 <= j < 3
      ensures !Occurs("April" + "/" + year, MonthName(j))
    {
      match j
      case 0 => Absent("April", year, "January", 'J');
      case 1 => Absent("April", year, "February", 'F');
      case 2 => Absent("April", year, "March", 'M');
    }
    forall j | 3 < j < 12
      ensures !Occurs("Abril" + "/" + year, MonthName(j))
    {
      match j
      case 4 => Absent("Abril", year, "May", 'M');
      case 5 => Absent("Abril", year, "June", 'J');
      case 6 => Absent("Abril", year, "July", 'J');
      case 7 => Absent("Abril", year, "August", 'u');
      case 8 => Absent("Abril", year, "September", 'S');
      case 9 => Absent("Abril", year, "October", 'O');
      case 10 => Absent("Abril", year, "November", 'N');
      case 11 => Absent("Abril", year, "December", 'D');
    }
  }

  lemma MayClues(year: string)
    requires AllDigits(year)
    ensures forall j :: 0 <= j < 4 ==> !Occurs("May" + "/" + year, MonthName(j))
    ensures forall j :: 4 < j < 12 ==> !Occurs("Maio" + "/" + year, MonthName(j))
  {
    forall j | 0 <= j < 4
      ensures !Occurs("May" + "/" + year, MonthName(j))
    {
      match j
      case 0 => Absent("May", year, "January", 'J');
      case 1 => Absent("May", year, "February", 'F');
      case 2 => Absent("May", year, "March", 'r');
      case 3 => Absent("May", year, "April", 'A');
    }
    forall j | 4 < j < 12
      ensures !Occurs("Maio" + "/" + year, MonthName(j))
    {
      match j
      case 5 => Absent("Maio", year, "June", 'J');
      case 6 => Absent("Maio", year, "July", 'J');
      case 7 => Absent("Maio", year, "August", 'A');
      case 8 => Absent("Maio", year, "September", 'S');
      case 9 => Absent("Maio", year, "October", 'O');
      case 10 => Absent("Maio", year, "November", 'N');
      case 11 => Absent("Maio", year, "December", 'D');
    }
  }

  lemma JuneClues(year: string)
    requires AllDigits(year)
    ensures forall j :: 0 <= j < 5 ==> !Occurs("June" + "/" + year, MonthName(j))
    ensures forall j :: 5 < j < 12 ==> !Occurs("Junho" + "/" + year, MonthName(j))
  {
    forall j | 0 <= j < 5
      ensures !Occurs("June" + "/" + year, MonthName(j))
    {
      match j
      case 0 => Absent("June", year, "January", 'a');
      case 1 => Absent("June", year, "February", 'F');
      case 2 => Absent("June", year, "March", 'M');
      case 3 => Absent("June", year, "April", 'A');
      case 4 => Absent("June", year, "May", 'M');
    }
    forall j | 5 < j < 12
      ensures !Occurs("Junho" + "/" + year, MonthName(j))
    {
      match j
      case 6 => Absent("Junho", year, "July", 'l');
      case 7 => Absent("Junho", year, "August", 'A');
      case 8 => Absent("Junho", year, "September", 'S');
      case 9 => Absent("Junho", year, "October", 'O');
      case 10 => Absent("Junho", year, "November", 'N');
      case 11 => Absent("Junho", year, "December", 'D');
    }
  }

  lemma JulyClues(year: string)
    requires AllDigits(year)
    ensures forall j :: 0 <= j < 6 ==> !Occurs("July" + "/" + year, MonthName(j))
    ensures forall j :: 6 < j < 12 ==> !Occurs("Julho" + "/" + year, MonthName(j))
  {
    forall j | 0 <= j < 6
      ensures !Occurs("July" + "/" + year, MonthName(j))
    {
      match j
      case 0 => Absent("July", year, "January", 'a');
      case 1 => Absent("July", year, "February", 'F');
      case 2 => Absent("July", year, "March", 'M');
      case 3 => Absent("July", year, "April", 'A');
      case 4 => Absent("July", year, "May", 'M');
      case 5 => Absent("July", year, "June", 'n');
    }
    forall j | 6 < j < 12
      ensures !Occurs("Julho" + "/" + year, MonthName(j))
    {
      match j
      case 7 => Absent("Julho", year, "August", 'A');
      case 8 => Absent("Julho", year, "September", 'S');
      case 9 => Absent("Julho", year, "October", 'O');
      case 10 => Absent("Julho", year, "November", 'N');
      case 11 => Absent("Julho", year, "December", 'D');
    }
  }

  lemma AugustClues(year: string)
    requires AllDigits(year)
    ensures forall j :: 0 <= j < 7 ==> !Occurs("August" + "/" + year, MonthName(j))
    ensures forall j :: 7 < j < 12 ==> !Occurs("Agosto" + "/" + year, MonthName(j))
  {
    forall j | 0 <= j < 7
      ensures !Occurs("August" + "/" + year, MonthName(j))
    {
      match j
      case 0 => Absent("August", year, "January", 'J');
      case 1 => Absent("August", year, "February", 'F');
      case 2 => Absent("August", year, "March", 'M');
      case 3 => Absent("August", year, "April", 'p');
      case 4 => Absent("August", year, "May", 'M');
      case 5 => Absent("August", year, "June", 'J');
      case 6 => Absent("August", year, "July", 'J');
    }
    forall j | 7 < j < 12
      ensures !Occurs("Agosto" + "/" + year, MonthName(j))
    {
      match j
      case 8 => Absent("Agosto", year, "September", 'S');
      case 9 => Absent("Agosto", year, "October", 'O');
      case 10 => Absent("Agosto", year, "November", 'N');
      case 11 => Absent("Agosto", year, "December", 'D');
    }
  }

  lemma SeptemberClues(year: string)
    requires AllDigits(year)
    ensures forall j :: 0 <= j < 8 ==> !Occurs("September" + "/" + year, MonthName(j))
    ensures forall j :: 8 < j < 12 ==> !Occurs("Setembro" + "/" + year, MonthName(j))
  {
    forall j | 0 <= j < 8
      ensures !Occurs("September" + "/" + year, MonthName(j))
    {
      match j
      case 0 => Absent("September", year, "January", 'J');
      case 1 => Absent("September", year, "February", 'F');
      case 2 => Absent("September", year, "March", 'M');
      case 3 => Absent("September", year, "April", 'A');
      case 4 => Absent("September", year, "May", 'M');
      case 5 => Absent("September", year, "June", 'J');
      case 6 => Absent("September", year, "July", 'J');
      case 7 => Absent("September", year, "August", 'A');
    }
    forall j | 8 < j < 12
      ensures !Occurs("Setembro" + "/" + year, MonthName(j))
    {
      match j
      case 9 => Absent("Setembro", year, "October", 'O');
      case 10 => Absent("Setembro", year, "November", 'N');
      case 11 => Absent("Setembro", year, "December", 'D');
    }
  }

  lemma OctoberClues(year: string)
    requires AllDigits(year)
    ensures forall j :: 0 <= j < 9 ==> !Occurs("October" + "/" + year, MonthName(j))
    ensures forall j :: 9 < j < 12 ==> !Occurs("Outubro" + "/" + year, MonthName(j))
  {
    forall j | 0 <= j < 9
      ensures !Occurs("October" + "/" + year, MonthName(j))
    {
      match j
      case 0 => Absent("October", year, "January", 'J');
      case 1 => Absent("October", year, "February", 'F');
      case 2 => Absent("October", year, "March", 'M');
      case 3 => Absent("October", year, "April", 'A');
      case 4 => Absent("October", year, "May", 'M');
      case 5 => Absent("October", year, "June", 'J');
      case 6 => Absent("October", year, "July", 'J');
      case 7 => Absent("October", year, "August", 'A');
      case 8 => Absent("October", year, "September", 'S');
    }
    forall j | 9 < j < 12
      ensures !Occurs("Outubro" + "/" + year, MonthName(j))
    {
      match j
      case 10 => Absent("Outubro", year, "November", 'N');
      case 11 => Absent("Outubro", year, "December", 'D');
    }
  }

  lemma NovemberClues(year: string)
    requires AllDigits(year)
    ensures forall j :: 0 <= j < 10 ==> !Occurs("November" + "/" + year, MonthName(j))
    ensures forall j :: 10 < j < 12 ==> !Occurs("Novembro" + "/" + year, MonthName(j))
  {
    forall j | 0 <= j < 10
      ensures !Occurs("November" + "/" + year, MonthName(j))
    {
      match j
      case 0 => Absent("November", year, "January", 'J');
      case 1 => Absent("November", year, "February", 'F');
      case 2 => Absent("November", year, "March", 'M');
      case 3 => Absent("November", year, "April", 'A');
      case 4 => Absent("November", year, "May", 'M');
      case 5 => Absent("November", year, "June", 'J');
      case 6 => Absent("November", year, "July", 'J');
      case 7 => Absent("November", year, "August", 'A');
      case 8 => Absent("November", year, "September", 'S');
      case 9 => Absent("November", year, "October", 'O');
    }
    forall j | 10 < j < 12
      ensures !Occurs("Novembro" + "/" + year, MonthName(j))
    {
      match j
      case 11 => Absent("Novembro", year, "December", 'D');
    }
  }

  lemma DecemberClues(year: string)
    requires AllDigits(year)
    ensures forall j :: 0 <= j < 11 ==> !Occurs("December" + "/" + year, MonthName(j))
  {
    forall j | 0 <= j < 11
      ensures !Occurs("December" + "/" + year, MonthName(j))
    {
      match j
      case 0 => Absent("December", year, "January", 'J');
      case 1 => Absent("December", year, "February", 'F');
      case 2 => Absent("December", year, "March", 'M');
      case 3 => Absent("December", year, "April", 'A');
      case 4 => Absent("December", year, "May", 'M');
      case 5 => Absent("December", year, "June", 'J');
      case 6 => Absent("December", year, "July", 'J');
      case 7 => Absent("December", year, "August", 'A');
      case 8 => Absent("December", year, "September", 'S');
      case 9 => Absent("December", year, "October", 'O');
      case 10 => Absent("December", year, "November", 'N');
    }
  }
}
