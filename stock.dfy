/**
 * The record store of the stock manager: the handle `fp` that `main` opens on
 * `estoque.dat`, and the two paths on disk it works with, `estoque.dat` and the temporary
 * `estoque.tmp`. Every operation takes the outcome of each library call it makes (seek,
 * read, write, open, remove, rename) as a parameter, and of each piece of user input.
 */
module Stock {
  import opened Wrappers
  import opened Records
  import opened DataFiles

  /** Why an operation stopped early. */
  datatype Failure =
    | NoHandle       // fp == NULL
    | EmptyFile      // tamanho(fp) == 0: the file holds no record, or seek/tell failed
    | BadInput       // scanf did not parse the code, the price or the index
    | OutOfRange     // idx < 0 || idx >= tamanho(fp)
    | CreateFailed   // fopen(..., "w+b") / fopen(..., "w") returned NULL
    | SeekFailed
    | ReadFailed
    | WriteFailed
    | CopyFailed     // a read or a write of the delete's copy loop failed
    | RemoveFailed   // remove("estoque.dat") failed
    | RenameFailed   // rename("estoque.tmp", "estoque.dat") failed
    | ReopenFailed   // fopen("estoque.dat", "r+b") failed after the swap

  datatype Result<T> = Ok(value: T) | Err(failure: Failure)

  /** One record as shown by the lookup, the listing and the report: its index and its block. */
  datatype Entry = Entry(index: nat, slot: Slot)

  /** The listing on screen: the count in its header, the entries, and whether it reached its end. */
  datatype Listing = Listing(total: nat, entries: seq<Entry>, complete: bool)

  /** The content of `relatorio.txt`: the count in its header line, then one section per entry. */
  datatype Report = Report(total: nat, entries: seq<Entry>)

  /**
   * `entries` is what reading blocks 0, 1, ... of `slots` in order yields when the loop runs
   * to `total` and stops at the first failed read: the blocks before it, each with its index.
   */
  predicate ReadInOrderFrom(entries: seq<Entry>, slots: seq<Slot>, total: nat, readOk: nat -> bool)
  {
    && |entries| <= total <= |slots|
    && (forall j :: 0 <= j < |entries| ==> entries[j] == Entry(j, slots[j]) && readOk(j))
    && (|entries| < total ==> !readOk(|entries|))
  }

  /** Only one sequence of entries is what an in-order read produces. */
  lemma ReadInOrderDetermined(e1: seq<Entry>, e2: seq<Entry>, slots: seq<Slot>, total: nat, readOk: nat -> bool)
    requires ReadInOrderFrom(e1, slots, total, readOk) && ReadInOrderFrom(e2, slots, total, readOk)
    ensures e1 == e2
  {
  }

  /** Report completeness: when no read fails, the entries are all `total` blocks in order. */
  lemma ReadInOrderComplete(entries: seq<Entry>, slots: seq<Slot>, total: nat, readOk: nat -> bool)
    requires ReadInOrderFrom(entries, slots, total, readOk)
    requires forall j :: 0 <= j < total ==> readOk(j)
    ensures |entries| == total
    ensures forall j :: 0 <= j < total ==> entries[j] == Entry(j, slots[j])
  {
  }

  /** Every read and, away from the deleted index `idx`, every write of the copy loop succeeds. */
  predicate CopySucceeds(total: nat, idx: nat, readOk: nat -> bool, writeOk: nat -> bool)
  {
    forall i :: 0 <= i < total ==> readOk(i) && (i != idx ==> writeOk(i))
  }

  /**
   * The outcomes of the library calls `excluir` makes: the seek and tell of `tamanho`,
   * `fopen("estoque.tmp", "w+b")`, the seek to the start of the original, the read of
   * block `i` and the write of block `i`, `remove("estoque.tmp")` on the clean-up paths,
   * `remove("estoque.dat")`, the rename, and the final `fopen("estoque.dat", "r+b")`.
   */
  datatype DeleteEnv = DeleteEnv(
    tellOk: bool,
    tempCreateOk: bool,
    seekOk: bool,
    readOk: nat -> bool,
    writeOk: nat -> bool,
    tempRemoveOk: bool,
    removeOk: bool,
    renameOk: bool,
    reopenOk: bool)

  class Store {
    /** `sizeof(Produto)`: left abstract, only required to be positive. */
    const recordSize: nat
    /** The file at `estoque.dat`, or None when no file is at that path. */
    var data: Option<DataFile>
    /** The file at `estoque.tmp`, or None when no file is at that path. */
    var temp: Option<DataFile>
    /** `fp != NULL`; an open `fp` always refers to the file at `estoque.dat`. */
    var open: bool

    ghost predicate Valid()
      reads this
    {
      && recordSize > 0
      && (open ==> data.Some?)
      && (data.Some? ==> data.value.tail < recordSize)
      && (temp.Some? ==> temp.value.tail < recordSize)
    }

    /** What `tamanho(fp)` returns. */
    ghost function Total(tellOk: bool): nat
      reads this
      requires Valid()
    {
      if open && tellOk then |data.value.slots| else 0
    }

    /** The index the user typed is one `consultar` and `excluir` accept. */
    ghost predicate Accepts(idx: Option<int>, tellOk: bool)
      reads this
      requires Valid()
    {
      Total(tellOk) > 0 && idx.Some? && 0 <= idx.value < Total(tellOk)
    }

    constructor Init(recordSize: nat, data: DataFile, temp: Option<DataFile>)
      requires recordSize > 0 && data.tail < recordSize
      requires temp.Some? ==> temp.value.tail < recordSize
      ensures Valid()
      ensures this.recordSize == recordSize && this.data == Some(data) && this.temp == temp && open
    {
      this.recordSize := recordSize;
      this.data := Some(data);
      this.temp := temp;
      open := true;
    }

    /**
     * The start of `main`: `fopen("estoque.dat", "r+b")` opens an existing file without
     * truncating it; when that fails, `fopen("estoque.dat", "w+b")` creates an empty file
     * (emptying one that exists); when that fails too the program exits (null here).
     */
    static method OpenOrCreate(recordSize: nat, existing: Option<DataFile>, staleTemp: Option<DataFile>,
                               openOk: bool, createOk: bool) returns (s: Store?)
      requires recordSize > 0
      requires existing.Some? ==> existing.value.tail < recordSize
      requires staleTemp.Some? ==> staleTemp.value.tail < recordSize
      ensures s == null <==> !(existing.Some? && openOk) && !createOk
      ensures s != null ==> fresh(s) && s.Valid() && s.open && s.recordSize == recordSize && s.temp == staleTemp
      ensures s != null && existing.Some? && openOk ==> s.data == existing
      ensures s != null && !(existing.Some? && openOk) ==> s.data == Some(EMPTY)
    {
      if existing.Some? && openOk {
        s := new Store.Init(recordSize, existing.value, staleTemp);
      } else if createOk {
        s := new Store.Init(recordSize, EMPTY, staleTemp);
      } else {
        s := null;
      }
    }

    /**
     * `tamanho`: 0 without a handle or when the seek to the end or `ftell` fails, otherwise
     * the file length divided by the record size, which is the number of complete blocks.
     */
    method Count(tellOk: bool) returns (n: nat)
      requires Valid()
      ensures n == Total(tellOk)
    {
      if !open {
        return 0;
      }
      if !tellOk {
        return 0;
      }
      var bytes := Length(data.value, recordSize);
      CountFromLength(data.value, recordSize);
      n := bytes / recordSize;
    }

    /**
     * `cadastrar`: reads the name, the code and the price, then seeks to the end and writes
     * one record. On success the file gains exactly the one block `AppendRecord` describes;
     * on every failure the file is as it was.
     */
    method Append(nameInput: string, nameReadFails: bool, code: Option<Int32>, price: Option<Price>,
                  seekOk: bool, writeOk: bool) returns (r: Result<Product>)
      requires Valid()
      modifies this`data
      ensures Valid()
      ensures !old(open) ==> r == Err(NoHandle)
      ensures old(open) && (code.None? || price.None?) ==> r == Err(BadInput)
      ensures old(open) && code.Some? && price.Some? && !seekOk ==> r == Err(SeekFailed)
      ensures old(open) && code.Some? && price.Some? && seekOk && !writeOk ==> r == Err(WriteFailed)
      ensures r.Ok? <==> old(open) && code.Some? && price.Some? && seekOk && writeOk
      ensures r.Ok? ==> r.value == Product(CaptureName(nameInput, nameReadFails, NAME_FIELD_SIZE), code.value, price.value)
      ensures r.Ok? ==> ValidName(r.value.name)
      ensures r.Ok? ==> data == Some(AppendRecord(old(data).value, r.value))
      ensures r.Ok? ==> Length(data.value, recordSize) == Length(old(data).value, recordSize) + recordSize
      ensures r.Err? ==> data == old(data)
    {
      if !open {
        return Err(NoHandle);
      }
      var name := CaptureName(nameInput, nameReadFails, NAME_FIELD_SIZE);
      CapturedNameFits(nameInput, nameReadFails);
      if code.None? || price.None? {
        return Err(BadInput);
      }
      var p := Product(name, code.value, price.value);
      if !seekOk {
        return Err(SeekFailed);
      }
      if !writeOk {
        return Err(WriteFailed);
      }
      AppendAddsOneRecord(data.value, p, recordSize);
      data := Some(AppendRecord(data.value, p));
      r := Ok(p);
    }

    /**
     * `consultar`: refuses without a handle, on an empty file, on unparsable input and on an
     * index outside `0 .. tamanho(fp) - 1`; otherwise seeks to `idx * recordSize` and reads
     * the block there.
     */
    method Lookup(idx: Option<int>, tellOk: bool, seekOk: bool, readOk: bool) returns (r: Result<Entry>)
      requires Valid()
      ensures !open ==> r == Err(NoHandle)
      ensures open && Total(tellOk) == 0 ==> r == Err(EmptyFile)
      ensures Total(tellOk) > 0 && idx.None? ==> r == Err(BadInput)
      ensures Total(tellOk) > 0 && idx.Some? && !(0 <= idx.value < Total(tellOk)) ==> r == Err(OutOfRange)
      ensures Accepts(idx, tellOk) && !seekOk ==> r == Err(SeekFailed)
      ensures Accepts(idx, tellOk) && seekOk && !readOk ==> r == Err(ReadFailed)
      ensures r.Ok? <==> Accepts(idx, tellOk) && seekOk && readOk
      ensures r.Ok? ==> r.value == Entry(idx.value, data.value.slots[idx.value])
      ensures r.Ok? ==> r.value.index * recordSize + recordSize <= Length(data.value, recordSize)
    {
      if !open {
        return Err(NoHandle);
      }
      var total := Count(tellOk);
      if total == 0 {
        return Err(EmptyFile);
      }
      if idx.None? {
        return Err(BadInput);
      }
      var i := idx.value;
      if i < 0 || i >= total {
        return Err(OutOfRange);
      }
      if !seekOk {
        return Err(SeekFailed);
      }
      if !readOk {
        return Err(ReadFailed);
      }
      BlockWithinFile(data.value, recordSize, i);
      r := Ok(Entry(i, data.value.slots[i]));
    }

    /**
     * The loop shared by `listar_todos` and `gerar_relatorio`: after a seek to the start,
     * read blocks 0 .. total - 1 one after the other, stopping at the first failed read.
     */
    method ReadInOrder(total: nat, readOk: nat -> bool) returns (entries: seq<Entry>)
      requires Valid() && open && total <= |data.value.slots|
      ensures ReadInOrderFrom(entries, data.value.slots, total, readOk)
    {
      entries := [];
      var i := 0;
      while i < total
        invariant 0 <= i <= total
        invariant |entries| == i
        invariant forall j :: 0 <= j < i ==> entries[j] == Entry(j, data.value.slots[j]) && readOk(j)
      {
        if !readOk(i) {
          return;
        }
        entries := entries + [Entry(i, data.value.slots[i])];
        i := i + 1;
      }
    }

    /**
     * `listar_todos`: every block from index 0 upwards, under a header with the count; a
     * failed seek leaves the header alone, a failed read ends the listing, and what was
     * shown stays shown.
     */
    method ListAll(tellOk: bool, seekOk: bool, readOk: nat -> bool) returns (r: Result<Listing>)
      requires Valid()
      ensures !open ==> r == Err(NoHandle)
      ensures open && Total(tellOk) == 0 ==> r == Err(EmptyFile)
      ensures r.Ok? <==> Total(tellOk) > 0
      ensures r.Ok? ==> r.value.total == Total(tellOk)
      ensures r.Ok? && !seekOk ==> r.value.entries == [] && !r.value.complete
      ensures r.Ok? && seekOk ==> ReadInOrderFrom(r.value.entries, data.value.slots, Total(tellOk), readOk)
      ensures r.Ok? && seekOk ==> (r.value.complete <==> |r.value.entries| == Total(tellOk))
    {
      if !open {
        return Err(NoHandle);
      }
      var total := Count(tellOk);
      if total == 0 {
        return Err(EmptyFile);
      }
      if !seekOk {
        return Ok(Listing(total, [], false));
      }
      var entries := ReadInOrder(total, readOk);
      r := Ok(Listing(total, entries, |entries| == total));
    }

    /**
     * `gerar_relatorio`: writes `relatorio.txt` (the result) only when there is a handle, the
     * file holds a record and the report file can be created; the header states the count;
     * a failed seek leaves the header alone, a failed read ends the entries.
     */
    method GenerateReport(tellOk: bool, createOk: bool, seekOk: bool, readOk: nat -> bool) returns (r: Result<Report>)
      requires Valid()
      ensures !open ==> r == Err(NoHandle)
      ensures open && Total(tellOk) == 0 ==> r == Err(EmptyFile)
      ensures Total(tellOk) > 0 && !createOk ==> r == Err(CreateFailed)
      ensures r.Ok? <==> Total(tellOk) > 0 && createOk
      ensures r.Ok? ==> r.value.total == Total(tellOk)
      ensures r.Ok? && !seekOk ==> r.value.entries == []
      ensures r.Ok? && seekOk ==> ReadInOrderFrom(r.value.entries, data.value.slots, Total(tellOk), readOk)
    {
      if !open {
        return Err(NoHandle);
      }
      var total := Count(tellOk);
      if total == 0 {
        return Err(EmptyFile);
      }
      if !createOk {
        return Err(CreateFailed);
      }
      if !seekOk {
        return Ok(Report(total, []));
      }
      var entries := ReadInOrder(total, readOk);
      r := Ok(Report(total, entries));
    }

    /**
     * The copy loop of `excluir`: reads every block of the original in order and writes each
     * one except block `idx` to the temporary file, stopping at the first failed read or
     * write. Only the temporary file changes.
     */
    method CopyAllBut(idx: nat, readOk: nat -> bool, writeOk: nat -> bool) returns (ok: bool)
      requires Valid() && open && idx < |data.value.slots| && temp == Some(EMPTY)
      modifies this`temp
      ensures Valid()
      ensures ok == CopySucceeds(|data.value.slots|, idx, readOk, writeOk)
      ensures temp.Some? && temp.value.tail == 0
      ensures ok ==> temp.value.slots == RemoveAt(data.value.slots, idx)
      ensures temp.value.slots <= RemoveAt(data.value.slots, idx)
    {
      var s := data.value.slots;
      var total := |s|;
      ok := true;
      var i := 0;
      while i < total
        invariant 0 <= i <= total
        invariant temp.Some? && temp.value.tail == 0
        invariant temp.value.slots == if i <= idx then s[..i] else s[..idx] + s[idx + 1..i]
        invariant forall j :: 0 <= j < i ==> readOk(j) && (j != idx ==> writeOk(j))
      {
        if !readOk(i) {
          ok := false;
          break;
        }
        if i != idx {
          if !writeOk(i) {
            ok := false;
            break;
          }
          temp := Some(DataFile(temp.value.slots + [s[i]], 0));
          if i > idx {
            assert s[idx + 1..i + 1] == s[idx + 1..i] + [s[i]];
          }
        }
        i := i + 1;
      }
    }

    /**
     * `excluir`: rebuilds the file without the chosen record and swaps it in. Nothing
     * changes when the call is refused before the temporary file exists; when the seek or
     * the copy fails the original file and the handle are untouched and the temporary file
     * is removed (when its removal succeeds); when the swap fails the handle is whatever
     * reopening `estoque.dat` yields.
     */
    method Delete(idx: Option<int>, env: DeleteEnv) returns (r: Result<nat>)
      requires Valid()
      modifies this`data, this`temp, this`open
      ensures Valid()
      ensures r == Err(NoHandle) <==> !old(open)
      ensures r == Err(EmptyFile) <==> old(open) && old(Total(env.tellOk)) == 0
      ensures r == Err(BadInput) <==> old(Total(env.tellOk)) > 0 && idx.None?
      ensures r == Err(OutOfRange) <==> old(Total(env.tellOk)) > 0 && idx.Some? && !(0 <= idx.value < old(Total(env.tellOk)))
      ensures r == Err(CreateFailed) <==> old(Accepts(idx, env.tellOk)) && !env.tempCreateOk
      ensures r.Err? && r.failure in {NoHandle, EmptyFile, BadInput, OutOfRange, CreateFailed} ==>
        data == old(data) && temp == old(temp) && open == old(open)
      ensures old(Accepts(idx, env.tellOk)) && env.tempCreateOk ==>
        var s, k := old(data).value.slots, idx.value;
        var rebuilt := DataFile(RemoveAt(s, k), 0);
        && (!env.seekOk ==>
              && r == Err(SeekFailed) && data == old(data) && open
              && temp == (if env.tempRemoveOk then None else Some(EMPTY)))
        && (env.seekOk && !CopySucceeds(|s|, k, env.readOk, env.writeOk) ==>
              && r == Err(CopyFailed) && data == old(data) && open
              && (env.tempRemoveOk ==> temp == None)
              && (!env.tempRemoveOk ==> temp.Some? && temp.value.tail == 0 && temp.value.slots <= rebuilt.slots))
        && (env.seekOk && CopySucceeds(|s|, k, env.readOk, env.writeOk) && !env.removeOk ==>
              r == Err(RemoveFailed) && data == old(data) && temp == Some(rebuilt) && open == env.reopenOk)
        && (env.seekOk && CopySucceeds(|s|, k, env.readOk, env.writeOk) && env.removeOk && !env.renameOk ==>
              r == Err(RenameFailed) && data == None && temp == Some(rebuilt) && !open)
        && (env.seekOk && CopySucceeds(|s|, k, env.readOk, env.writeOk) && env.removeOk && env.renameOk ==>
              && data == Some(rebuilt) && temp == None && open == env.reopenOk
              && r == (if env.reopenOk then Ok(k) else Err(ReopenFailed)))
    {
      if !open {
        return Err(NoHandle);
      }
      var total := Count(env.tellOk);
      if total == 0 {
        return Err(EmptyFile);
      }
      if idx.None? {
        return Err(BadInput);
      }
      var k := idx.value;
      if k < 0 || k >= total {
        return Err(OutOfRange);
      }
      if !env.tempCreateOk {
        return Err(CreateFailed);
      }
      temp := Some(EMPTY);
      if !env.seekOk {
        if env.tempRemoveOk {
          temp := None;
        }
        return Err(SeekFailed);
      }
      var copied := CopyAllBut(k, env.readOk, env.writeOk);
      if !copied {
        if env.tempRemoveOk {
          temp := None;
        }
        return Err(CopyFailed);
      }
      // fclose(fp): the original is closed before it is replaced
      open := false;
      if !env.removeOk {
        // the original is still at its path, so reopening it may succeed
        open := env.reopenOk;
        return Err(RemoveFailed);
      }
      data := None;
      if !env.renameOk {
        // reopening a path that holds no file yields NULL
        return Err(RenameFailed);
      }
      data, temp := temp, None;
      open := env.reopenOk;
      r := if env.reopenOk then Ok(k) else Err(ReopenFailed);
    }
  }
}
