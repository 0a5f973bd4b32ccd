# Calculo_Entropia: symbol counting, pixel channels and per-millisecond audio windows

A Dafny model of the integer and sequence logic in three small C# programs:

- **The image program** (`LecturadeImagen/Lectura.cs`). It walks a bitmap row by row and collects the R, G and B values of every pixel into three lists. It also raises a colour flag when some pixel has unequal channels. It then builds a frequency table of each analysed channel: `GroupBy` the value, count each group, `OrderBy` the value. R is always analysed; G and B only when the image is in colour.
- **The text program** (`ArchivosDeTexto/LeerTexto.cs`). It builds the frequency table of the characters of a file: `GroupBy`, count, then `OrderByDescending` on the count. Each character is printed under a display name.
- **The audio program** (`ConsoleApp1/Program.cs`). `GetAveragedDataPerMs` cuts the sample matrix `y[muestra, canal]` into consecutive windows of `samplesPerMs` rows, sums each window per channel and divides the sum by `samplesPerMs` (the model keeps the sum; the division is left out, see below). `SaveDataToCsv` lays the result out as CSV text.

Module layout:

- `Frequency`: the `GroupBy`/`Count` pass.
  - `GroupCounts` is the functional definition.
  - `CountGroups` is the loop over a dictionary.
  - `IsFrequencyTable` says what a correct table is.
- `StableSort`: LINQ's stable `OrderBy`, written as an insertion sort on an integer key. `OrderByDescending` is `OrderBy` on the negated key.
- `OrderedTables`: both of the above combined, with their correctness.
- `ImageChannels`: the image program.
- `TextEntropy`: the text program.
- `AudioWindows`: the audio window computation.
- `CsvLayout`: the CSV text built by `SaveDataToCsv`.
- `Wrappers`: `Option`.

Several things are parameters or modelled choices:

- A result of `None` stands for each early return that builds no table: the empty channel list, and empty text.
- In `GetAveragedDataPerMs`, `samplesPerMs` is a parameter. The value 0 gives the `DivideByZero` outcome, which is C#'s integer division fault at `numMuestras / samplesPerMs`. Each cell of the output matrix holds the exact window sum.
- The CSV text takes two parameters:
  - `fmt`, how a number is written;
  - `newline`, the platform line terminator.
- A time vector shorter than the matrix makes `t_ms[r]` throw inside the `try` block, so nothing is written. That outcome is `None`.

## Model

| member | source | states |
|---|---|---|
| Frequency.CountGroups | LecturadeImagen/Lectura.cs:38-44 | The single GroupBy pass gives the keys in first-occurrence order (`Distinct(s)`), with a dictionary whose domain is exactly the symbols of s and whose value for each key is its number of occurrences. Entry i of `GroupCounts(s)` is (keys[i], counts[keys[i]]). |
| Frequency.CountStep | LecturadeImagen/Lectura.cs:38-44 | Reading one more symbol keeps the dictionary invariant: a known key's count goes up by one, and a new key is appended with count 1. |
| Frequency.DistinctMembers | LecturadeImagen/Lectura.cs:39 | The GroupBy keys are exactly the symbols of the input: each key occurs in s and each element of s is a key. |
| Frequency.DistinctSnoc | LecturadeImagen/Lectura.cs:39 | Appending x adds x to the keys exactly when x has not occurred before. |
| Frequency.DistinctFirstSeenOrder | ArchivosDeTexto/LeerTexto.cs:35 | GroupBy lists its keys strictly in order of their first occurrence in the input. |
| Frequency.GroupCountsSum | LecturadeImagen/Lectura.cs:38-49 | The counts of the GroupBy table add up to the number of input symbols (`totalSimbolos`). |
| Frequency.GroupCountsIsTable | LecturadeImagen/Lectura.cs:38-44 | GroupCounts(s) is a frequency table of s: one row per distinct symbol, each with its exact count. Its rows are in first-occurrence order and its counts sum to \|s\|. |
| Frequency.IndexOf | ArchivosDeTexto/LeerTexto.cs:35 | The first-occurrence position: below \|s\| exactly when x occurs, and then s[i] == x with no earlier x. |
| Frequency.GroupCounts | LecturadeImagen/Lectura.cs:38-44 | Defines `GroupBy(g => g).Select(g => (g.Key, g.Count()))`: one (key, count) row per key of `Distinct`, in that order. Its properties are proved by `GroupCountsIsTable` and `GroupCountsSum`, and `CountGroups` ties it to the dictionary loop. |
| StableSort.SortBy | LecturadeImagen/Lectura.cs:45 | OrderBy returns a permutation of its input (same multiset). |
| StableSort.SortByStable | ArchivosDeTexto/LeerTexto.cs:41 | Stability: when the input is strictly increasing in a tie-break, the output is sorted by key and, among equal keys, still increasing in that tie-break. |
| StableSort.InsertLexSorted | ArchivosDeTexto/LeerTexto.cs:41 | Inserting an element that comes before all others in tie-break order keeps a (key, tie) sorted sequence sorted. |
| OrderedTables.SumCountsSortBy | LecturadeImagen/Lectura.cs:45-49 | Sorting the table does not change the total of its counts. |
| OrderedTables.OrderedTable | LecturadeImagen/Lectura.cs:38-46 | Defines the whole `GroupBy`/`Select`/`OrderBy(key)` pipeline as `SortBy(GroupCounts(s), key)`. `OrderedTableIsTable` proves its properties. |
| OrderedTables.PermutedTable | LecturadeImagen/Lectura.cs:45-46 | A strictly ordered rearrangement of a frequency table is still a frequency table of the same input. |
| OrderedTables.OrderedTableIsTable | ArchivosDeTexto/LeerTexto.cs:34-42 | `GroupBy`, `Select`, then `OrderBy(key)` gives a frequency table whose counts sum to \|s\|. It is sorted by key, and rows with equal keys come in first-occurrence order. |
| ImageChannels.PixelIsColor | LecturadeImagen/Lectura.cs:111 | The three-way colour test holds exactly when R != G or R != B: the third disjunct G != B adds nothing. |
| ImageChannels.Flatten | LecturadeImagen/Lectura.cs:100-110 | Defines the contents of `canalR`/`canalG`/`canalB`: channel c of every pixel, row after row. `FlattenLength`, `FlattenAt` and `ChannelsRowMajor` prove its length and row-major layout; `CollectChannels` ties it to the pixel loops. |
| ImageChannels.HasColor | LecturadeImagen/Lectura.cs:92-114 | Defines the final value of `esColor`: some pixel passes the colour test. `HasColorIff` and `ColorFlagIff` prove it equivalent to "some pixel has R != G or R != B"; `CollectChannels` ties it to the loops. |
| ImageChannels.CollectChannels | LecturadeImagen/Lectura.cs:92-116 | The pixel loops give the R, G and B lists as the row-major flattening of the image per channel, and the colour flag as "some pixel is in colour". |
| ImageChannels.CollectRow | LecturadeImagen/Lectura.cs:102-115 | The inner loop over one row appends that row's R, G and B values after what was there. The flag ends as its old value or "some pixel of the row is in colour", so a raised flag is never lowered. |
| ImageChannels.FlattenLength | LecturadeImagen/Lectura.cs:100-110 | A channel list of H rows of W pixels holds H·W values. |
| ImageChannels.FlattenAt | LecturadeImagen/Lectura.cs:100-110 | Position y·W+x of a channel list holds pixel (x, y)'s value of that channel. |
| ImageChannels.ChannelRowMajor | LecturadeImagen/Lectura.cs:100-110 | One channel list has Height·Width entries, and entry y·Width+x is channel c of GetPixel(x, y). |
| ImageChannels.ChannelsRowMajor | LecturadeImagen/Lectura.cs:100-110 | The R, G and B lists each have Height·Width entries, and entry y·Width+x holds pixel (x, y)'s R, G and B. |
| ImageChannels.RowHasColorIff | LecturadeImagen/Lectura.cs:111-114 | Within a row, the flag is raised exactly when some pixel of the row has unequal channels. |
| ImageChannels.HasColorIff | LecturadeImagen/Lectura.cs:111-114 | Over the whole image, the flag is raised exactly when some pixel has unequal channels. |
| ImageChannels.ColorFlagIff | LecturadeImagen/Lectura.cs:92-114 | The final esColor is true exactly when some pixel (x, y) has R != G or R != B. |
| ImageChannels.GrayChannelsEqual | LecturadeImagen/Lectura.cs:125-134 | For a grayscale image the G and B lists equal the R list, so analysing R alone loses nothing. |
| ImageChannels.AnalyseChannel | LecturadeImagen/Lectura.cs:30-49 | Empty list gives no table; otherwise one row per distinct value with its exact count, strictly ascending by value, every count at least 1, counts summing to the list's length. |
| ImageChannels.ChannelTable | LecturadeImagen/Lectura.cs:38-46 | Defines `frecuencias` for a channel: the pipeline with `OrderBy(x => x.Simbolo)`. `ChannelTableCorrect` proves it is an exact, strictly ascending table. |
| ImageChannels.ChannelTableCorrect | LecturadeImagen/Lectura.cs:38-46 | `GroupBy`, `Select`, `OrderBy(Simbolo)` gives a frequency table of the channel that is strictly ascending by value, with counts summing to the channel length. |
| ImageChannels.DisplayedRows | LecturadeImagen/Lectura.cs:66-70 | Defines the rows the table printer shows, the `if (item.Frecuencia > 0)` filter: the rows with a count above zero, in table order. `DisplayedRowsKeepsTable` proves it keeps every row of a frequency table. |
| ImageChannels.DisplayedRowsKeepsTable | LecturadeImagen/Lectura.cs:59-70 | Every row of a frequency table has a count of at least 1, so the `Frecuencia > 0` display filter drops no row. |
| ImageChannels.AnalyseImage | LecturadeImagen/Lectura.cs:92-134 | R is always analysed. G and B are analysed exactly when the image is in colour. For a grayscale image the skipped analyses would have equalled R's. |
| TextEntropy.AnalyseText | ArchivosDeTexto/LeerTexto.cs:26-45 | Empty content gives no table. Otherwise the table has one row per distinct character with its exact count, counts summing to the content length, in non-increasing count order with equal counts in first-occurrence order. |
| TextEntropy.CharTable | ArchivosDeTexto/LeerTexto.cs:34-42 | Defines `frecuencias` for a text: the pipeline with `OrderByDescending(x => x.Frecuencia)`, written as `OrderBy` on the negated count. `CharTableCorrect` proves it is an exact table in non-increasing count order with stable ties. |
| TextEntropy.CharTableCorrect | ArchivosDeTexto/LeerTexto.cs:34-42 | `GroupBy`, `Select`, `OrderByDescending(Frecuencia)` gives a frequency table, highest count first, with ties in first-occurrence order. |
| TextEntropy.SymbolDisplay | ArchivosDeTexto/LeerTexto.cs:61-66 | ' ', '\n', '\r', '\t' are shown as "[Espacio]", "[NL]", "[CR]", "[Tab]"; every other character as itself. The result is longer than one character exactly for those four. |
| TextEntropy.SymbolDisplayInjective | ArchivosDeTexto/LeerTexto.cs:61-66 | Different characters are displayed differently. |
| AudioWindows.NumWindows | ConsoleApp1/Program.cs:55 | Defines `numMs = numMuestras / samplesPerMs`, C#'s integer division on non-negative operands. `WindowLayout` proves the last window ends within numMuestras and `WindowsTile` proves numMuestras mod samplesPerMs samples remain. |
| AudioWindows.WindowStart | ConsoleApp1/Program.cs:73 | Defines `idxIni = k * samplesPerMs`. `WindowLayout` and `WindowsTile` prove the windows it opens tile the samples below numMs·s. |
| AudioWindows.WindowEnd | ConsoleApp1/Program.cs:75 | Defines `idxFin = (k + 1) * samplesPerMs`. `WindowLayout` proves each window holds samplesPerMs samples and ends where the next starts. |
| AudioWindows.SumRange | ConsoleApp1/Program.cs:91-96 | Defines the `sum += y[i, canal]` loop over idxIni <= i < idxFin. `SumRangeAgree` proves it depends only on the samples in its range, and `WindowSum` and `GetAveragedDataPerMs` apply it per window. |
| AudioWindows.WindowLayout | ConsoleApp1/Program.cs:67-95 | Window k is [k·s, (k+1)·s), holds exactly s samples and ends where window k+1 starts. It lies wholly before every later window, and the last window ends at numMs·s <= numMuestras, so every read is in bounds. |
| AudioWindows.WindowsTile | ConsoleApp1/Program.cs:55-75 | Each sample below numMs·s lies in window i / s and in no other, and numMuestras - numMs·s = numMuestras mod s samples are left after the last window. |
| AudioWindows.TrailingSamplesUnread | ConsoleApp1/Program.cs:55-97 | Changing the samples after the last whole window changes no window sum: they are never read. |
| AudioWindows.GetAveragedDataPerMs | ConsoleApp1/Program.cs:39-113 | samplesPerMs = 0 faults. Otherwise the output is a fresh matrix of numMuestras / samplesPerMs (floor) rows by numCanales columns. Entry [k, c] is the sum of y[i, c] over window k. The time vector is [0, 1, ..., numMs - 1]. |
| AudioWindows.WindowSum | ConsoleApp1/Program.cs:85-97 | Defines the value of `sum` after the innermost loop for window k and channel c: the sum of y[i, c] over [k·s, (k+1)·s). `WindowLayout` proves that range in bounds, and `GetAveragedDataPerMs` stores it in y_ms[k, c]. |
| CsvLayout.Decimal | ConsoleApp1/Program.cs:205 | A channel number is written as one or more decimal digits. |
| CsvLayout.DecimalValue | ConsoleApp1/Program.cs:205 | The digits of Decimal(n) denote n, and there is no leading zero. |
| CsvLayout.DecimalInjective | ConsoleApp1/Program.cs:205 | Different channel numbers are written differently. |
| CsvLayout.SplitJoin | ConsoleApp1/Program.cs:233-235 | Splitting a comma-joined line at the commas gives its fields back, provided no field holds a comma. |
| CsvLayout.HeaderFields | ConsoleApp1/Program.cs:199-207 | Defines the header fields the builder appends: "Tiempo_ms", then `Canal_{c}` for c = 1 .. numCanales. `HeaderFieldsAt` proves their number and contents, and `HeaderFieldsDistinct` that they are pairwise distinct. |
| CsvLayout.HeaderFieldsAt | ConsoleApp1/Program.cs:199-207 | The header has 1 + numCanales fields: "Tiempo_ms", then field c is "Canal_c" for c = 1 .. numCanales. |
| CsvLayout.HeaderFieldsDistinct | ConsoleApp1/Program.cs:199-207 | The header fields are pairwise distinct, so every channel column has its own name. |
| CsvLayout.RowFields | ConsoleApp1/Program.cs:223-237 | Defines the fields of data row r up to column c: `t_ms[r]`, then `y_ms[r, j]` for j < c, each written by `fmt`. `RowFieldsAt` proves their number and contents. |
| CsvLayout.RowFieldsAt | ConsoleApp1/Program.cs:223-237 | Data row r has 1 + numCanales fields: t_ms[r], then y_ms[r, c] for c = 0 .. numCanales - 1. |
| CsvLayout.DataLine | ConsoleApp1/Program.cs:223-237 | Defines data line r: the fields of `RowFields` joined by commas, as `Append(t_ms[r])` and then `Append($",{y_ms[r, c]}")` build it. `RowLineSplits` proves it splits back into those fields. |
| CsvLayout.Lines | ConsoleApp1/Program.cs:199-241 | Defines the sequence of lines passed to `AppendLine`: the header line, then data lines 0 .. rows - 1. `LinesAt` proves its length and entries and `LinesLayout` their read-back. |
| CsvLayout.Terminated | ConsoleApp1/Program.cs:209-239 | Defines the builder's text after the `AppendLine` calls: each line followed by the newline, in order. `TerminatedSnoc` proves one `AppendLine` adds exactly one line and one newline. |
| CsvLayout.HeaderLineSplits | ConsoleApp1/Program.cs:199-209 | The header line splits at its commas into exactly "Tiempo_ms", "Canal_1", ..., "Canal_numCanales". |
| CsvLayout.RowLineSplits | ConsoleApp1/Program.cs:215-241 | Data line r splits at its commas into exactly t_ms[r] and the numCanales values of row r, when no formatted number holds a comma. |
| CsvLayout.LinesAt | ConsoleApp1/Program.cs:199-241 | The line sequence `Lines(...)` has 1 + numMs entries: the header line first, then data line r in position r + 1. `CsvText` is these entries each followed by the newline. |
| CsvLayout.LinesLayout | ConsoleApp1/Program.cs:199-241 | In the line sequence `Lines(...)`, entry 0 splits at its commas into the header fields, and entry r + 1 into row r's 1 + numCanales fields. |
| CsvLayout.TerminatedSnoc | ConsoleApp1/Program.cs:209-239 | Each AppendLine adds one line followed by the newline to what is already in the builder. |
| CsvLayout.HeaderLine | ConsoleApp1/Program.cs:199-207 | The header loop builds "Tiempo_ms" followed by ",Canal_c" for c = 1 .. numCanales, in order. |
| CsvLayout.RowLine | ConsoleApp1/Program.cs:223-237 | The row loop builds t_ms[r] followed by ",y_ms[r, c]" for each channel, in order. |
| CsvLayout.BuildCsv | ConsoleApp1/Program.cs:187-263 | Text is produced exactly when t_ms is at least as long as the matrix. It is then the header line and one line per row, each followed by the newline. A shorter t_ms throws, the throw is caught, and nothing is written. |
| CsvLayout.CsvText | ConsoleApp1/Program.cs:191-241 | Defines `sb.ToString()` at the file write: the header line and then data lines 0 .. numMs - 1, each followed by the newline. `LinesAt` and `LinesLayout` prove the structure of the line sequence it is built from, and `BuildCsv` ties it to the builder loops. |

## Left out

- Entropy, `Log2`, probabilities and entropy averages: floating-point numerics. The model stops at the frequency table they are computed from.
- The `F8` and `F6` formatting of those values, and every console table: display only.
- The division `sum / samplesPerMs`: floating point. `GetAveragedDataPerMs` keeps the exact per-window integer sum in each cell.
- `Math.Round(Fs / 1000.0)`: floating point. `samplesPerMs` is a parameter of `GetAveragedDataPerMs`.
- Negative values of `samplesPerMs`: small or negative `Fs` rounds to 0 or below. A `nat` parameter covers 0, the fault case, and leaves negative values out.
- Samples are integers, not `double`s: the sums are exact in the model where the program rounds.
- `Bitmap`, `GetPixel`'s library internals and `PixelFormat`: an image is a value with `width`, `height` and rows of RGB triples.
- `File.ReadAllText`, `StreamWriter`, `File.WriteAllText`, `Console.ReadLine`, the "salir" loop and `Split` on `Environment.NewLine`: I/O.
- The pixel text file written at the end of the image program (LecturadeImagen/Lectura.cs:178-204): file I/O, not modelled.
- Exception handlers, except the two outcomes modelled: division by zero in `GetAveragedDataPerMs`, and the caught out-of-range `t_ms[r]` in `SaveDataToCsv`.
- Partial printing (the first 10 rows and 20 columns of pixels, the first 10 lines of text, the first 10 milliseconds): display only.
- A `null` text content: a Dafny string is never null, so only the empty case of `IsNullOrEmpty` is modelled.
- Texts with characters outside the Basic Multilingual Plane. A C# `char` is a UTF-16 code unit, so `GroupBy` counts each half of a surrogate pair as its own symbol. A Dafny `char` is a Unicode scalar value and cannot hold a lone surrogate. The model therefore covers texts whose characters all lie in the Basic Multilingual Plane, where each C# `char` is one Dafny `char`.
- The way a number is written in a CSV cell (`double.ToString`, culture dependent) is the parameter `fmt`.
- RowLineSplits and LinesLayout: the read-back of a data line holds only when `fmt` never produces a comma. That condition depends on the culture's decimal separator, so it is assumed as a requirement rather than proved.
- The platform newline is the parameter `newline`. Because it is unconstrained, the line structure is proved of the sequence `Lines(...)` that `CsvText` terminates, not by splitting the text itself at the newline.
- HeaderLine, RowLine and BuildCsv: the header and each data line are built by their own loops and then appended. The program appends field by field to one `StringBuilder`. The text that results is the same; the intermediate builder states are not modelled.
- CollectChannels and CollectRow: the inner pixel loop is its own method, which takes and returns the three lists and the flag. The program appends to its lists in place, with the same `Add` calls in the same order.
- The Huffman program (codificación-Huffman/Program.cs) is not part of this model.
