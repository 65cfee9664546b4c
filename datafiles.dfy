/**
 * The content of a binary data file (`estoque.dat`, `estoque.tmp`) as the program sees it:
 * a dense run of fixed-size blocks, block `i` at byte offset `i * recordSize`, possibly
 * followed by a partial block that no read ever reaches.
 */
module DataFiles {
  import opened Records

  /**
   * One complete block of the file. `Rec(p)` is a block written as one whole record by
   * `fwrite(&p, sizeof(Produto), 1, fp)`; `Torn` is a block that straddles two writes (an
   * append made after a partial trailing block) and whose bytes the model does not track.
   */
  datatype Slot = Rec(product: Product) | Torn

  /** The complete blocks in file order, and the number of bytes of the partial block after them. */
  datatype DataFile = DataFile(slots: seq<Slot>, tail: nat)

  /** A file created by `fopen(path, "w+b")`. */
  const EMPTY: DataFile := DataFile([], 0)

  /** The file's length in bytes, as `ftell` after `fseek(fp, 0, SEEK_END)` reports it. */
  function Length(f: DataFile, recordSize: nat): nat
  {
    |f.slots| * recordSize + f.tail
  }

  /**
   * `tamanho`'s division: the byte length divided by the record size, truncated, is the
   * number of complete blocks; the partial block does not count. (The length is never
   * negative, so C's truncating division and Dafny's agree.)
   */
  lemma CountFromLength(f: DataFile, recordSize: nat)
    requires recordSize > 0 && f.tail < recordSize
    ensures Length(f, recordSize) / recordSize == |f.slots|
  {
    QuotientOf(Length(f, recordSize), recordSize, |f.slots|, f.tail);
  }

  /** Division with remainder is unique: `a == q * d + r` with `0 <= r < d` makes `q` the quotient. */
  lemma QuotientOf(a: int, d: int, q: int, r: int)
    requires d > 0 && 0 <= r < d && a == q * d + r
    ensures a / d == q
  {
    var q', r' := a / d, a % d;
    assert (q - q') * d == r' - r;
    if q > q' {
      AtLeastOneMultiple(q - q', d);
    } else if q < q' {
      AtLeastOneMultiple(q' - q, d);
    }
  }

  /** One or more copies of a non-negative `d` add up to at least `d`. */
  lemma AtLeastOneMultiple(k: int, d: int)
    requires k >= 1 && d >= 0
    ensures k * d >= d
  {
  }

  /**
   * Block `i` of the file, read with `fseek(fp, i * recordSize, SEEK_SET)` and one `fread`
   * of `recordSize` bytes, lies wholly inside the file.
   */
  lemma BlockWithinFile(f: DataFile, recordSize: nat, i: nat)
    requires i < |f.slots|
    ensures i * recordSize + recordSize <= Length(f, recordSize)
  {
    MultipleMonotone(i + 1, |f.slots|, recordSize);
    assert (i + 1) * recordSize == i * recordSize + recordSize;
  }

  /** More copies of a non-negative `d` add up to at least as much. */
  lemma {:induction false} MultipleMonotone(a: nat, b: nat, d: nat)
    requires a <= b
    ensures a * d <= b * d
    decreases b - a
  {
    if a < b {
      MultipleMonotone(a + 1, b, d);
      assert (a + 1) * d == a * d + d;
    }
  }

  /**
   * The file after `fseek(fp, 0, SEEK_END)` and one successful `fwrite` of `p`: one more block
   * at the end, every earlier block as it was. The new block holds `p` exactly when the file
   * ended on a block boundary; otherwise it straddles the old partial block and the start of
   * `p`, and the end of `p` becomes the new partial block, of the same size as before.
   */
  function AppendRecord(f: DataFile, p: Product): (g: DataFile)
    ensures |g.slots| == |f.slots| + 1
    ensures g.slots[..|f.slots|] == f.slots
    ensures g.tail == f.tail
    ensures g.slots[|f.slots|] == if f.tail == 0 then Rec(p) else Torn
  {
    DataFile(f.slots + [if f.tail == 0 then Rec(p) else Torn], f.tail)
  }

  /** An append writes exactly one record's worth of bytes. */
  lemma AppendAddsOneRecord(f: DataFile, p: Product, recordSize: nat)
    ensures Length(AppendRecord(f, p), recordSize) == Length(f, recordSize) + recordSize
  {
  }

  /** The file after appending each of `ps` in turn, as successive calls of `cadastrar` do. */
  function AppendAll(f: DataFile, ps: seq<Product>): (g: DataFile)
    ensures |g.slots| == |f.slots| + |ps|
    ensures g.slots[..|f.slots|] == f.slots
    ensures g.tail == f.tail
    decreases |ps|
  {
    if ps == [] then f else AppendAll(AppendRecord(f, ps[0]), ps[1..])
  }

  /** Successive appends to a file that ends on a block boundary keep every record whole and in order. */
  lemma {:induction false} AppendAllAligned(f: DataFile, ps: seq<Product>)
    requires f.tail == 0
    ensures var g := AppendAll(f, ps);
      && g.tail == 0
      && |g.slots| == |f.slots| + |ps|
      && g.slots[..|f.slots|] == f.slots
      && forall i :: 0 <= i < |ps| ==> g.slots[|f.slots| + i] == Rec(ps[i])
    decreases |ps|
  {
    if ps != [] {
      var f' := AppendRecord(f, ps[0]);
      AppendAllAligned(f', ps[1..]);
      var g := AppendAll(f, ps);
      assert g == AppendAll(f', ps[1..]);
      assert g.slots[..|f.slots|] == g.slots[..|f'.slots|][..|f.slots|];
      forall i | 0 <= i < |ps|
        ensures g.slots[|f.slots| + i] == Rec(ps[i])
      {
        if i == 0 {
          assert g.slots[|f.slots|] == g.slots[..|f'.slots|][|f.slots|];
        } else {
          assert g.slots[|f'.slots| + (i - 1)] == Rec(ps[1..][i - 1]);
        }
      }
    }
  }

  /**
   * Positional stability: appending `ps` to a newly created file gives a file of exactly
   * `|ps|` blocks, block `i` holding the `i`-th appended record.
   */
  lemma FreshFileHoldsAppends(ps: seq<Product>)
    ensures var g := AppendAll(EMPTY, ps);
      g.tail == 0 && |g.slots| == |ps| && forall i :: 0 <= i < |ps| ==> g.slots[i] == Rec(ps[i])
  {
    AppendAllAligned(EMPTY, ps);
  }

  /**
   * The sequence `s` without its element at `i`: the elements before `i` keep their
   * positions, the ones after it move down by one.
   */
  function RemoveAt<T>(s: seq<T>, i: nat): (r: seq<T>)
    requires i < |s|
    ensures |r| == |s| - 1
    ensures forall j :: 0 <= j < i ==> r[j] == s[j]
    ensures forall j :: i <= j < |r| ==> r[j] == s[j + 1]
  {
    s[..i] + s[i + 1..]
  }

  /** Removing keeps every other element: only one occurrence of `s[i]` is lost. */
  lemma RemoveAtKeepsOthers<T>(s: seq<T>, i: nat)
    requires i < |s|
    ensures multiset(RemoveAt(s, i)) + multiset{s[i]} == multiset(s)
  {
    assert s == s[..i] + [s[i]] + s[i + 1..];
  }

  /**
   * Deleting block `idx` of a file built by appends gives the file that the same appends
   * without the `idx`-th one would have built.
   */
  lemma DeleteUndoesAppend(ps: seq<Product>, idx: nat)
    requires idx < |ps|
    ensures RemoveAt(AppendAll(EMPTY, ps).slots, idx) == AppendAll(EMPTY, RemoveAt(ps, idx)).slots
  {
    FreshFileHoldsAppends(ps);
    FreshFileHoldsAppends(RemoveAt(ps, idx));
    var a := RemoveAt(AppendAll(EMPTY, ps).slots, idx);
    var b := AppendAll(EMPTY, RemoveAt(ps, idx)).slots;
    assert |a| == |b|;
    forall j | 0 <= j < |a|
      ensures a[j] == b[j]
    {
      if j < idx {
        assert a[j] == Rec(ps[j]);
      } else {
        assert a[j] == Rec(ps[j + 1]);
      }
    }
  }
}
