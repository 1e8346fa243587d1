# Dictionary loader of the keyword translator

The program keeps a dictionary of `PalabraInfo` records in memory. Each record holds a keyword (`palabra`), its translation (`traduccion`) and a description (`funcionalidad`). At start-up, `cargarDatos` fills the dictionary from a text file that holds one record per line. This project models that loader.

- **Record.** `struct PalabraInfo` is the datatype `Traductor.Entry`.
- **Splitting a line.** `getline` on a `stringstream` follows clause [string.io] of ISO/IEC 14882. The module `Getline` models it in `getline.dfy`:
  - the read stops at the first delimiter, and the delimiter is consumed;
  - a stream that is no longer good refuses to read;
  - the call fails only when it extracted no character, and a consumed delimiter counts as one.
- **One line.** `Traductor.ReadRecord` in `traductor.dfy` runs the three chained calls of `cargarDatos` on one line. It reuses the caller's `temp` record, as the source does.
- **Reference rule.** `Traductor.ParseRecord` states the same acceptance rule in terms of commas. A line is accepted exactly when:
  - it has a first comma;
  - it has a second comma;
  - at least one character follows the second comma.

  The keyword is the text before the first comma. The translation is the text between the two commas. The description is the rest of the line, verbatim, including any further commas.
- **Whole file.** `Load` gives the records of a file, `Warnings` gives the lines warned about, and `Accepted` gives the accepted lines.
- **Dictionary.** `Traductor.Dictionary` is the `vector` passed by reference. Its method `CargarDatos` clears the vector and rebuilds it with a loop over the lines. It is proved to produce exactly `Load` and `Warnings`.

Inputs are modelled as parameters:

- The dictionary file is `Option<seq<string>>`. `None` means the file could not be opened. Otherwise the value holds the file's lines as the outer `getline` delivers them, already split on `'\n'`, so no line contains a `'\n'`.
- A `'\r'` at the end of a line is an ordinary character, so it stays at the end of the description.

The loader checks nothing beyond what the three `getline` calls demand:

- A line that ends right after its second comma (`"a,b,"`) is rejected, because the third `getline` extracts nothing there and fails.
- An empty keyword (`",x,y"`) and duplicate keywords are stored without any check.

## Model

| member | source | states |
|---|---|---|
| Getline.IndexOf | traductor.cpp:90-92 | the position where `getline` stops: the first occurrence of the delimiter at or after the read position, or the end of the line; no delimiter lies before it |
| Getline.Open | traductor.cpp:89 | a new string stream holds the line, reads from its start and is good |
| Getline.GetLine | traductor.cpp:90-92 | `getline` on a string stream: a stream that is not good fails and leaves the target string unchanged; otherwise the target is the text up to the first delimiter, without the delimiter; the call fails exactly when nothing was extracted; it either consumes the delimiter or reaches end of file |
| Traductor.ParseRecord | traductor.cpp:90-92 | an accepted line is exactly `keyword + "," + translation + "," + description`; neither the keyword nor the translation contains a comma; the description is non-empty |
| Traductor.ReadRecord | traductor.cpp:81-92 | the three chained `getline` calls accept a line exactly when `ParseRecord` does; the reused record then holds exactly `ParseRecord`'s fields, whatever it held before |
| Traductor.AcceptedIff | traductor.cpp:90-92 | a line is accepted iff it has two commas and at least one character after the second; so an empty line, a line with fewer than two commas and a line ending at its second comma are rejected |
| Traductor.ParseFormat | traductor.cpp:90-92 | the inverse direction: writing a record as a line and reading it back gives the record again, when the keyword and translation contain no comma and the description is non-empty |
| Traductor.ParseExamples | traductor.cpp:90-94 | `",x,y"` loads with an empty keyword; `"a,b,c,d"` keeps `"c,d"` as its description; `"a,b,"`, `"a,b"` and `""` are rejected |
| Traductor.Load | traductor.cpp:88-94 | a file yields at most one record per line |
| Traductor.Accepted | traductor.cpp:88-94 | the accepted lines are lines of the file that `ParseRecord` accepts, at most one per line |
| Traductor.Warnings | traductor.cpp:95-98 | every line warned about is a line of the file that is non-empty and rejected |
| Traductor.LoadFormat | traductor.cpp:88-94 | round trip, order and count: the loaded records, written back, are the accepted lines in file order, one record per accepted line |
| Traductor.LoadAppend | traductor.cpp:88-94 | the records of a file in two parts are those of the first part followed by those of the second, so entries are appended in file order |
| Traductor.WarningsAppend | traductor.cpp:95-98 | the warnings for a file in two parts are those for the first part followed by those for the second, in file order |
| Traductor.LoadMembership | traductor.cpp:90-94 | a record is loaded iff some line of the file reads as it; there is no trimming and no check against other records, so duplicate and empty keywords are kept |
| Traductor.LinesPartition | traductor.cpp:88-99 | the number of loaded records, the number of lines warned about and the number of empty (silently skipped) lines add up to the number of lines |
| Traductor.WarningsMembership | traductor.cpp:95-98 | a warning is issued for a line iff it is rejected and non-empty |
| Traductor.Dictionary.constructor | traductor.cpp:38 | a new dictionary is empty |
| Traductor.Dictionary.CargarDatos | traductor.cpp:78-105 | the dictionary is cleared first, so the result depends only on the file. Afterwards it holds exactly `Load` of the file's lines and the returned warnings are exactly `Warnings` of them. If the file cannot be opened, the dictionary is empty and no line warning is returned |

## Left out

- Opening and closing the `ifstream`, and how the file is split into lines: the file is a parameter, already split into lines.
- The text of the messages written to `cout` and `cerr` (traductor.cpp:97, 103-104): a warning is modelled as the offending line itself; the message shown when the file cannot be opened is not modelled.
- The diagnostic after loading that inspects the stream's `eof()`, `fail()` and `bad()` flags (traductor.cpp:107-110): it depends on the state of the file stream after reading, and the rest of the function is not part of this model.
- Getline.GetLine: does not model the bad flag (a string buffer cannot raise an I/O error) or the `max_size()` limit on the target string.
- The interactive menu of `main` (traductor.cpp:37-74): console input and output.
- `guardarDatos`, `buscarIndicePalabra`, `traducirPalabra`, `gestionarDiccionario`, `agregarPalabra`, `mostrarPalabras`, `actualizarPalabra`, `eliminarPalabra` and `traducirCodigo`: only their prototypes (traductor.cpp:19-32) appear in the source, so their behaviour cannot be stated from it. `ParseFormat` states what a save in the same three-field format would need in order to load back: a record with a comma in its keyword or translation, or with an empty description, would not survive being saved and loaded again.
