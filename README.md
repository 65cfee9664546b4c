# Stock record store — a Dafny model

The stock manager written in C (`exercicio_estoque.c`) keeps its products in the binary
file `estoque.dat`. The file is a dense run of fixed-size `Produto` records: record `i`
sits at byte offset `i * sizeof(Produto)`. The program counts the records (`tamanho`),
appends one (`cadastrar`), reads one by index (`consultar`), lists them all on screen
(`listar_todos`) and writes them to `relatorio.txt` (`gerar_relatorio`). It deletes one
(`excluir`) by copying every other record into `estoque.tmp`, removing the original,
renaming the copy into its place and reopening it. The live handle is updated through
`FILE **pfp`.

This project models that store and proves what each operation does on every path,
including every failure exit.

- `records.dfy` (module `Records`): the `Produto` record and the rule by which
  `ler_string` captures the name. `fgets` reads at most 49 characters up to a newline,
  and the result is cut at the first newline (or NUL).
- `datafiles.dfy` (module `DataFiles`): the content of a data file, given as its complete
  blocks plus the size of a partial trailing block. It also holds the count as truncating
  division, the effect of one append, the removal of one block, and lemmas about repeated
  appends.
- `stock.dfy` (module `Stock`): the class `Store`. Its fields are `fp` (the flag `open`),
  the file at `estoque.dat` (`data`) and the file at `estoque.tmp` (`temp`), both
  `None` when no file is at that path. It has one method per operation, including the
  rebuild-and-swap delete and the open-or-create step of `main`.
- `scenarios.dfy` (module `StockScenarios`): two client methods that use the contracts
  alone. One appends A, B and C to a new file, deletes index 1, and then finds A at
  index 0 and C at index 1. The other shows that a failed copy leaves the store as it was.

Every library call whose outcome the program tests is a boolean parameter of the
operation: `fseek`/`ftell`, `fread`, `fwrite`, `fopen`, `remove`, `rename`. The read and
the write of record `i` are given as functions `readOk(i)` and `writeOk(i)`. The user's
input is also a parameter: the name line, and `scanf` results given as `Option` values.
`sizeof(Produto)` is the store's constant `recordSize`. It is left abstract and is only
required to be positive.

A data file whose length is not a multiple of the record size has a partial trailing
block. `tamanho` ignores it, by truncating division. `cadastrar` seeks to the real end of
the file, so a record appended after a partial block straddles two blocks. The model
marks such a block `Torn`: it is counted, read and copied like any other block, but its
bytes are not tracked. `excluir` copies only complete blocks, so the rebuilt file has no
partial block.

The code does not do the following, and neither does the model:

- A failed `fwrite` in `cadastrar` is reported, but no truncation is attempted.
- A partial trailing block is never reported as corrupt.
- When rename fails, the rebuilt file is left at `estoque.tmp`.
- Open-or-create falls back to `fopen(..., "w+b")` whenever opening with `"r+b"` fails. That
  also empties an existing file that could not be opened for update.

## Model

| member | source | states |
|---|---|---|
| `Records.SpanWithout` | exercicio_estoque.c:45 | the result is the length of the longest prefix free of the stop characters: every character before it is not a stop, and the one at it is |
| `Records.CaptureName` | exercicio_estoque.c:38-54 | the captured name is a prefix of the input of at most `size - 1` characters and holds no newline and no NUL; it is empty when `fgets` returns NULL |
| `Records.CapturedNameFits` | exercicio_estoque.c:84 | a name read into the 50-byte field has at most 49 characters and no newline |
| `Records.CaptureStopsOnlyWhenForced` | exercicio_estoque.c:40-45 | the capture ends only when the field is full, the input has run out, or the next input character is a newline or NUL (with the ensures of `CaptureName`, this fixes the name uniquely) |
| `Records.ShortLineCapturedWhole` | exercicio_estoque.c:40-45 | a line of at most `size - 1` characters followed by a newline is captured whole, without the newline |
| `Records.LongLineTruncated` | exercicio_estoque.c:40-48 | a longer line without newline or NUL in its first `size - 1` characters is truncated to those characters |
| `DataFiles.CountFromLength` | exercicio_estoque.c:64-70 | the byte length divided by the record size (truncating) is the number of complete blocks; a partial trailing block is not counted |
| `DataFiles.BlockWithinFile` | exercicio_estoque.c:149-153 | the block at index `i < count` starts at `i * recordSize` and ends inside the file |
| `DataFiles.AppendRecord` | exercicio_estoque.c:102-108 | an append adds exactly one block at the end and leaves every earlier block and the partial-block size unchanged; the new block is the record itself when the file ended on a block boundary |
| `DataFiles.AppendAddsOneRecord` | exercicio_estoque.c:108 | an append grows the file by exactly one record's worth of bytes |
| `DataFiles.AppendAll` | exercicio_estoque.c:74-116 | appending `n` records adds exactly `n` blocks and keeps the earlier ones and the partial-block size |
| `DataFiles.AppendAllAligned` | exercicio_estoque.c:102-108 | repeated appends to an aligned file keep it aligned and place the `i`-th appended record at the `i`-th new position |
| `DataFiles.FreshFileHoldsAppends` | exercicio_estoque.c:102-112 | after `n` appends to a new file, the count is `n` and block `i` holds the `i`-th appended record |
| `DataFiles.RemoveAt` | exercicio_estoque.c:249-261 | removing index `i` shortens the sequence by one, keeps the elements before `i` in place and moves the later ones down by one |
| `DataFiles.RemoveAtKeepsOthers` | exercicio_estoque.c:249-261 | removing index `i` loses exactly one occurrence of the element at `i` and keeps every other element |
| `DataFiles.DeleteUndoesAppend` | exercicio_estoque.c:249-261 | deleting block `idx` of a file built by appends gives the file that the same appends, without the `idx`-th one, would have built |
| `Stock.ReadInOrderDetermined` | exercicio_estoque.c:188-194 | an in-order read that stops at the first failure yields exactly one sequence of entries |
| `Stock.ReadInOrderComplete` | exercicio_estoque.c:332-340 | when no read fails, the entries are exactly the `total` blocks, one per index, in ascending order |
| `Stock.Store.OpenOrCreate` | exercicio_estoque.c:352-359 | an existing file opened with `"r+b"` keeps its content; otherwise a successful `"w+b"` gives an empty file; when both fail there is no store; the result has an open handle |
| `Stock.Store.Count` | exercicio_estoque.c:57-70 | the count is 0 without a handle or when seek/tell fails, and otherwise the number of complete blocks |
| `Stock.Store.Append` | exercicio_estoque.c:74-116 | no handle, bad code or price, failed seek or failed write each leave the file unchanged with their own error; success appends exactly the record with the captured name, and the file grows by one record |
| `Stock.Store.Lookup` | exercicio_estoque.c:119-156 | no handle, empty file, bad input, and an index `< 0` or `>= count` are each refused; otherwise a failed seek or read is reported, and success returns block `idx`, which lies inside the file at offset `idx * recordSize` |
| `Stock.Store.ReadInOrder` | exercicio_estoque.c:188-194 | reads blocks 0, 1, ... in order, each with its index, and stops exactly at the first failed read |
| `Stock.Store.ListAll` | exercicio_estoque.c:166-196 | refuses without a handle or on an empty file; otherwise lists under the count the blocks read in order up to the first failed read, or nothing after a failed seek, and is complete exactly when every block was read |
| `Stock.Store.GenerateReport` | exercicio_estoque.c:301-344 | writes the report only with a handle, a non-empty file and a created report file; the header states the count; a failed seek leaves only the header; entries are the blocks read in order up to the first failed read |
| `Stock.Store.CopyAllBut` | exercicio_estoque.c:248-261 | the copy succeeds exactly when every read succeeds and every write other than at `idx` succeeds; on success the temporary file holds the old blocks without block `idx`; it always holds a prefix of that; the original is untouched |
| `Stock.Store.Delete` | exercicio_estoque.c:198-298 | before the temporary file exists, refusals change nothing. A failed seek or copy leaves the original and its handle untouched; the temporary file is removed if its removal succeeds. A failed remove keeps the original, leaves the rebuilt temporary file, and the handle is the reopen result. A failed rename leaves no original, the rebuilt temporary file and no handle. Success installs the old blocks without block `idx` and adopts the reopen result |

## Left out

- The menu loop and dispatch of `main` (exercicio_estoque.c:361-409) and the final `fclose`: interactive glue.
- `scanf` parsing and `limpaBuffer`, and the draining of the rest of an over-long line in `ler_string` (exercicio_estoque.c:47-53): these only consume standard input. Parsed values are `Option` parameters.
- The message text of `printf`/`fprintf`/`perror`, the listing footer and the `%.2f` formatting of the price: presentation and floating point. Listings and the report are returned as entries, and the price is an uninterpreted 32-bit pattern.
- The byte layout of `Produto` (field order, padding, endianness) and the real size `sizeof(Produto)`: these are implementation-defined. The record size is abstract, and the bytes of a `Torn` block are not tracked.
- File positions: the model does not track where `fp` points after a call. Each read yields the block it addresses. The position left after a failed copy is not modelled.
- Partial writes and the results of `fflush` and `fclose`: a failed `fwrite` writes nothing in the model, and the program ignores the results of `fflush` and `fclose` anyway.
- Real filesystem behaviour: each `fopen`/`remove`/`rename` is a success or failure parameter. A failed call changes nothing. Reopening a path that holds no file yields NULL. Crash windows and other processes are not modelled.
- The `pfp == NULL` test of `excluir` (exercicio_estoque.c:207): the program only ever calls it with `&fp`.
- Integer widths: `scanf` overflow of `%d` and `%ld`, `ftell` overflow of `long`, and overflow of `idx * sizeof(Produto)` are not modelled.
- Records.CaptureName: each character stands for one byte (C `char`) of input; multi-byte encodings such as UTF-8 are not decoded, so "49 characters" means 49 bytes, and a name the model keeps whole may in the program end in a split multi-byte character.
- Records are written and read as the raw struct and never decoded: the model copies blocks as they are.
