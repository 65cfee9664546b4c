/**
 * A client of the store that uses the contracts alone: three records appended to a newly
 * created file, then the middle one deleted, as the menu of `main` would do it.
 */
module StockScenarios {
  import opened Wrappers
  import opened Records
  import opened DataFiles
  import opened Stock

  method DeleteShiftsLaterRecords(recordSize: nat, a: string, b: string, c: string, code: Int32, price: Price)
    requires recordSize > 0
  {
    var s := Store.OpenOrCreate(recordSize, None, None, false, true);
    var ra := s.Append(a + "\n", false, Some(code), Some(price), true, true);
    var rb := s.Append(b + "\n", false, Some(code), Some(price), true, true);
    var rc := s.Append(c + "\n", false, Some(code), Some(price), true, true);
    var n := s.Count(true);
    assert n == 3;
    var allOk := (i: nat) => true;
    var env := DeleteEnv(true, true, true, allOk, allOk, true, true, true, true);
    assert CopySucceeds(3, 1, allOk, allOk);
    var d := s.Delete(Some(1), env);
    assert d == Ok(1);
    n := s.Count(true);
    assert n == 2;
    var first := s.Lookup(Some(0), true, true, true);
    var second := s.Lookup(Some(1), true, true, true);
    assert first == Ok(Entry(0, Rec(ra.value)));
    assert second == Ok(Entry(1, Rec(rc.value)));
    var third := s.Lookup(Some(2), true, true, true);
    assert third == Err(OutOfRange);
  }

  method FailedCopyLeavesStoreAsItWas(s: Store, readOk: nat -> bool)
    requires s.Valid() && s.open && |s.data.value.slots| >= 2 && !readOk(1)
    modifies s
  {
    var before := s.data;
    var n := s.Count(true);
    var allOk := (i: nat) => true;
    var d := s.Delete(Some(0), DeleteEnv(true, true, true, readOk, allOk, true, true, true, true));
    assert !CopySucceeds(|before.value.slots|, 0, readOk, allOk);
    assert d == Err(CopyFailed);
    assert s.data == before && s.open && s.temp == None;
    var m := s.Count(true);
    assert m == n;
  }
}
