/**
 * SaveDataToCsv: the text written for a matrix y_ms[ms, canal] and a time
 * vector t_ms. A header line "Tiempo_ms,Canal_1,...,Canal_n", then one line
 * per row r holding t_ms[r] and the row's values, separated by commas; each
 * line ends with the platform's newline. How a number is turned into text is
 * the parameter fmt.
 */
module CsvLayout {
  import opened Wrappers

  /** The decimal digits of n, as C# string interpolation writes a non-negative int. */
  function Decimal(n: nat): (r: string)
    ensures |r| >= 1
    ensures forall i :: 0 <= i < |r| ==> '0' <= r[i] <= '9'
  {
    var d := ['0' + (n % 10) as char];
    if n < 10 then d else Decimal(n / 10) + d
  }

  /** The number a string of decimal digits denotes, most significant digit first. */
  function DigitsValue(d: string): nat
    requires forall i :: 0 <= i < |d| ==> '0' <= d[i] <= '9'
  {
    if d == [] then 0 else 10 * DigitsValue(d[..|d| - 1]) + (d[|d| - 1] - '0') as nat
  }

  /** Decimal(n) spells n, without a leading zero. */
  lemma {:induction false} DecimalValue(n: nat)
    ensures DigitsValue(Decimal(n)) == n
    ensures n >= 10 ==> Decimal(n)[0] != '0'
  {
    var r := Decimal(n);
    if n >= 10 {
      DecimalValue(n / 10);
      assert r[..|r| - 1] == Decimal(n / 10);
    }
  }

  /** Different numbers are written differently. */
  lemma DecimalInjective(a: nat, b: nat)
    requires Decimal(a) == Decimal(b)
    ensures a == b
  {
    DecimalValue(a);
    DecimalValue(b);
  }

  /** The fields joined with sep between neighbours. */
  function Join(fields: seq<string>, sep: char): string
  {
    if |fields| == 0 then ""
    else if |fields| == 1 then fields[0]
    else Join(fields[..|fields| - 1], sep) + [sep] + fields[|fields| - 1]
  }

  /** The pieces of line between occurrences of sep (String.Split with one separator). */
  function Split(line: string, sep: char): (fields: seq<string>)
    ensures |fields| >= 1
  {
    if line == [] then [""]
    else
      var init, ch := line[..|line| - 1], line[|line| - 1];
      var fs := Split(init, sep);
      if ch == sep then fs + [""] else fs[..|fs| - 1] + [fs[|fs| - 1] + [ch]]
  }

  lemma {:induction false} SplitAppendField(line: string, sep: char, field: string)
    requires sep !in field
    ensures Split(line + [sep] + field, sep) == Split(line, sep) + [field]
    decreases |field|
  {
    if field == [] {
      assert (line + [sep] + field)[..|line|] == line;
    } else {
      var f', ch := field[..|field| - 1], field[|field| - 1];
      assert line + [sep] + field == (line + [sep] + f') + [ch];
      assert ((line + [sep] + f') + [ch])[..|line + [sep] + f'|] == line + [sep] + f';
      assert sep !in f' by {
        assert forall i :: 0 <= i < |f'| ==> f'[i] == field[i];
      }
      SplitAppendField(line, sep, f');
      assert ch != sep && f' + [ch] == field;
    }
  }

  lemma {:induction false} SplitNoSep(field: string, sep: char)
    requires sep !in field
    ensures Split(field, sep) == [field]
  {
    if field != [] {
      var f' := field[..|field| - 1];
      assert sep !in f' by {
        assert forall i :: 0 <= i < |f'| ==> f'[i] == field[i];
      }
      SplitNoSep(f', sep);
      assert f' + [field[|field| - 1]] == field;
    }
  }

  /** Splitting a joined line gives back its fields, provided no field contains the separator. */
  lemma {:induction false} SplitJoin(fields: seq<string>, sep: char)
    requires |fields| >= 1
    requires forall i :: 0 <= i < |fields| ==> sep !in fields[i]
    ensures Split(Join(fields, sep), sep) == fields
  {
    if |fields| == 1 {
      SplitNoSep(fields[0], sep);
    } else {
      var init, last := fields[..|fields| - 1], fields[|fields| - 1];
      assert forall i :: 0 <= i < |init| ==> sep !in init[i] by {
        assert forall i :: 0 <= i < |init| ==> init[i] == fields[i];
      }
      SplitJoin(init, sep);
      assert Join(fields, sep) == Join(init, sep) + [sep] + last;
      SplitAppendField(Join(init, sep), sep, last);
      assert init + [last] == fields;
    }
  }

  /** The fields of the header line: "Tiempo_ms" and then "Canal_c" for c = 1 .. numCanales. */
  function HeaderFields(numCanales: nat): (fs: seq<string>)
  {
    if numCanales == 0 then ["Tiempo_ms"]
    else HeaderFields(numCanales - 1) + ["Canal_" + Decimal(numCanales)]
  }

  lemma {:induction false} HeaderFieldsAt(numCanales: nat)
    ensures |HeaderFields(numCanales)| == 1 + numCanales
    ensures HeaderFields(numCanales)[0] == "Tiempo_ms"
    ensures forall c :: 1 <= c <= numCanales ==> HeaderFields(numCanales)[c] == "Canal_" + Decimal(c)
  {
    if numCanales > 0 {
      HeaderFieldsAt(numCanales - 1);
    }
  }

  /** No two header fields are equal: every channel has its own column name. */
  lemma HeaderFieldsDistinct(numCanales: nat)
    ensures forall i, j :: 0 <= i < j < |HeaderFields(numCanales)| ==> HeaderFields(numCanales)[i] != HeaderFields(numCanales)[j]
  {
    var fs := HeaderFields(numCanales);
    HeaderFieldsAt(numCanales);
    forall i, j | 0 <= i < j < |fs| ensures fs[i] != fs[j] {
      var dj := Decimal(j);
      assert fs[j] == "Canal_" + dj;
      if i == 0 {
        assert fs[i][0] != fs[j][0];
      } else {
        var di := Decimal(i);
        assert fs[i] == "Canal_" + di;
        if fs[i] == fs[j] {
          assert di == fs[i][6..] && dj == fs[j][6..];
          DecimalInjective(i, j);
        }
      }
    }
  }

  /** The fields of data line r, up to column c: t_ms[r], then y_ms[r, 0 .. c - 1]. */
  function RowFields<T>(yMs: array2<T>, tMs: seq<T>, fmt: T -> string, r: nat, c: nat): seq<string>
    reads yMs
    requires r < yMs.Length0 && r < |tMs| && c <= yMs.Length1
  {
    if c == 0 then [fmt(tMs[r])]
    else RowFields(yMs, tMs, fmt, r, c - 1) + [fmt(yMs[r, c - 1])]
  }

  lemma {:induction false} RowFieldsAt<T>(yMs: array2<T>, tMs: seq<T>, fmt: T -> string, r: nat, c: nat)
    requires r < yMs.Length0 && r < |tMs| && c <= yMs.Length1
    ensures |RowFields(yMs, tMs, fmt, r, c)| == 1 + c
    ensures RowFields(yMs, tMs, fmt, r, c)[0] == fmt(tMs[r])
    ensures forall j :: 0 <= j < c ==> RowFields(yMs, tMs, fmt, r, c)[j + 1] == fmt(yMs[r, j])
  {
    if c > 0 {
      RowFieldsAt(yMs, tMs, fmt, r, c - 1);
    }
  }

  /** Data line r: its fields joined with commas. */
  function DataLine<T>(yMs: array2<T>, tMs: seq<T>, fmt: T -> string, r: nat): string
    reads yMs
    requires r < yMs.Length0 && r < |tMs|
  {
    Join(RowFields(yMs, tMs, fmt, r, yMs.Length1), ',')
  }

  /** The header line followed by the data lines of rows 0 .. rows - 1. */
  function Lines<T>(yMs: array2<T>, tMs: seq<T>, fmt: T -> string, rows: nat): seq<string>
    reads yMs
    requires rows <= yMs.Length0 && rows <= |tMs|
  {
    if rows == 0 then [Join(HeaderFields(yMs.Length1), ',')]
    else Lines(yMs, tMs, fmt, rows - 1) + [DataLine(yMs, tMs, fmt, rows - 1)]
  }

  /** The lines, each followed by newline: what AppendLine leaves in the builder. */
  function Terminated(lines: seq<string>, newline: string): string
  {
    if lines == [] then "" else Terminated(lines[..|lines| - 1], newline) + lines[|lines| - 1] + newline
  }

  lemma TerminatedSnoc(lines: seq<string>, line: string, newline: string)
    ensures Terminated(lines + [line], newline) == Terminated(lines, newline) + line + newline
  {
    assert (lines + [line])[..|lines|] == lines;
  }

  /** The whole file text for a matrix with numMs rows. */
  function CsvText<T>(yMs: array2<T>, tMs: seq<T>, fmt: T -> string, newline: string): string
    reads yMs
    requires yMs.Length0 <= |tMs|
  {
    Terminated(Lines(yMs, tMs, fmt, yMs.Length0), newline)
  }

  lemma JoinSnoc(fields: seq<string>, field: string, sep: char)
    requires |fields| >= 1
    ensures Join(fields + [field], sep) == Join(fields, sep) + [sep] + field
  {
    assert (fields + [field])[..|fields|] == fields;
  }

  lemma ChannelNameNoComma(c: nat)
    ensures ',' !in "Canal_" + Decimal(c)
  {
    var d := Decimal(c);
    assert forall j :: 0 <= j < |d| ==> d[j] != ',';
    assert forall j :: 0 <= j < |"Canal_" + d| ==> ("Canal_" + d)[j] != ',' by {
      forall j | 0 <= j < |"Canal_" + d| ensures ("Canal_" + d)[j] != ',' {
        if j >= 6 {
          assert ("Canal_" + d)[j] == d[j - 6];
        }
      }
    }
  }

  /** The header line splits into "Tiempo_ms" and "Canal_1" .. "Canal_numCanales". */
  lemma HeaderLineSplits(numCanales: nat)
    ensures Split(Join(HeaderFields(numCanales), ','), ',') == HeaderFields(numCanales)
  {
    var fs := HeaderFields(numCanales);
    HeaderFieldsAt(numCanales);
    forall i | 0 <= i < |fs| ensures ',' !in fs[i] {
      if i > 0 {
        ChannelNameNoComma(i);
      }
    }
    SplitJoin(fs, ',');
  }

  /** Data line r splits into t_ms[r] and the numCanales values of row r when no formatted number holds a comma. */
  lemma RowLineSplits<T>(yMs: array2<T>, tMs: seq<T>, fmt: T -> string, r: nat)
    requires r < yMs.Length0 && r < |tMs|
    requires forall v :: ',' !in fmt(v)
    ensures Split(DataLine(yMs, tMs, fmt, r), ',') == RowFields(yMs, tMs, fmt, r, yMs.Length1)
  {
    var fs := RowFields(yMs, tMs, fmt, r, yMs.Length1);
    RowFieldsAt(yMs, tMs, fmt, r, yMs.Length1);
    forall i | 0 <= i < |fs| ensures ',' !in fs[i] {
      if i > 0 {
        assert fs[i] == fmt(yMs[r, i - 1]);
      }
    }
    SplitJoin(fs, ',');
  }

  /** Lines holds the header line and then one data line per row, in row order. */
  lemma {:induction false} LinesAt<T>(yMs: array2<T>, tMs: seq<T>, fmt: T -> string, rows: nat)
    requires rows <= yMs.Length0 && rows <= |tMs|
    ensures |Lines(yMs, tMs, fmt, rows)| == 1 + rows
    ensures Lines(yMs, tMs, fmt, rows)[0] == Join(HeaderFields(yMs.Length1), ',')
    ensures forall r :: 0 <= r < rows ==> Lines(yMs, tMs, fmt, rows)[r + 1] == DataLine(yMs, tMs, fmt, r)
  {
    if rows > 0 {
      var prev := Lines(yMs, tMs, fmt, rows - 1);
      var last := DataLine(yMs, tMs, fmt, rows - 1);
      LinesAt(yMs, tMs, fmt, rows - 1);
      assert Lines(yMs, tMs, fmt, rows) == prev + [last];
      forall r | 0 <= r < rows
        ensures (prev + [last])[r + 1] == DataLine(yMs, tMs, fmt, r)
      {
        if r < rows - 1 {
          assert (prev + [last])[r + 1] == prev[r + 1];
        }
      }
    }
  }

  /**
   * The layout of the file: 1 + numMs lines; line 0 splits into "Tiempo_ms"
   * and "Canal_1" .. "Canal_numCanales"; line r + 1 splits into t_ms[r] and
   * the numCanales values of row r, provided no formatted number contains a
   * comma.
   */
  lemma LinesLayout<T>(yMs: array2<T>, tMs: seq<T>, fmt: T -> string, rows: nat)
    requires rows <= yMs.Length0 && rows <= |tMs|
    requires forall v :: ',' !in fmt(v)
    ensures |Lines(yMs, tMs, fmt, rows)| == 1 + rows
    ensures Split(Lines(yMs, tMs, fmt, rows)[0], ',') == HeaderFields(yMs.Length1)
    ensures forall r :: 0 <= r < rows ==> Split(Lines(yMs, tMs, fmt, rows)[r + 1], ',') == RowFields(yMs, tMs, fmt, r, yMs.Length1)
  {
    LinesAt(yMs, tMs, fmt, rows);
    HeaderLineSplits(yMs.Length1);
    forall r | 0 <= r < rows
      ensures Split(Lines(yMs, tMs, fmt, rows)[r + 1], ',') == RowFields(yMs, tMs, fmt, r, yMs.Length1)
    {
      RowLineSplits(yMs, tMs, fmt, r);
    }
  }

  /** The header row: "Tiempo_ms" and ",Canal_c" for c = 1 .. numCanales, appended in that order. */
  method HeaderLine(numCanales: nat) returns (line: string)
    ensures line == Join(HeaderFields(numCanales), ',')
  {
    line := "Tiempo_ms";
    for c := 1 to numCanales + 1
      invariant line == Join(HeaderFields(c - 1), ',')
    {
      JoinSnoc(HeaderFields(c - 1), "Canal_" + Decimal(c), ',');
      line := line + "," + "Canal_" + Decimal(c);
    }
  }

  /** Data row r: t_ms[r], then ",y_ms[r, c]" for each channel c, appended in that order. */
  method RowLine<T>(yMs: array2<T>, tMs: seq<T>, fmt: T -> string, row: nat) returns (line: string)
    requires row < yMs.Length0 && row < |tMs|
    ensures line == DataLine(yMs, tMs, fmt, row)
  {
    line := fmt(tMs[row]);
    for c := 0 to yMs.Length1
      invariant line == Join(RowFields(yMs, tMs, fmt, row, c), ',')
    {
      JoinSnoc(RowFields(yMs, tMs, fmt, row, c), fmt(yMs[row, c]), ',');
      line := line + "," + fmt(yMs[row, c]);
    }
  }

  /**
   * SaveDataToCsv's text building, up to the file write. A time vector shorter
   * than the matrix makes t_ms[r] throw inside the try block, so nothing is
   * written (None).
   */
  method BuildCsv<T>(yMs: array2<T>, tMs: seq<T>, fmt: T -> string, newline: string) returns (r: Option<string>)
    ensures r.Some? <==> yMs.Length0 <= |tMs|
    ensures r.Some? ==> r.value == CsvText(yMs, tMs, fmt, newline)
  {
    var header := HeaderLine(yMs.Length1);
    var sb := header + newline;
    assert sb == Terminated(Lines(yMs, tMs, fmt, 0), newline);
    for row := 0 to yMs.Length0
      invariant row <= |tMs|
      invariant sb == Terminated(Lines(yMs, tMs, fmt, row), newline)
    {
      if row >= |tMs| {
        return None;
      }
      var line := RowLine(yMs, tMs, fmt, row);
      TerminatedSnoc(Lines(yMs, tMs, fmt, row), line, newline);
      sb := sb + line + newline;
    }
    return Some(sb);
  }
}
