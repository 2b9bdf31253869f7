/**
 * The canned data that the stand-in fetch functions return, and the rows
 * that the transformation produces from it.
 */
module Fixture {
  import opened Decimal
  import opened Employees
  import opened AgeSort
  import opened ViewModel
  import opened Seqs

  /**
   * The session value that `getLoginInfo` returns. Nothing depends on it:
   * `getEmployee` ignores the token it is given.
   */
  const FixtureLogin: LoginInfo := LoginInfo("test")

  const Numa := Employee("numa08", 7)
  const Mironal := Employee("mironal", 17)
  const Ryohey := Employee("ryohey", 17)
  const Yanac := Employee("yanac", 17)
  const Takku := Employee("takkumattsu", 37)

  /** The employee list that `getEmployee` returns, whatever the token. */
  const FixtureEmployees: seq<Employee> := [Takku, Mironal, Ryohey, Yanac, Numa]

  lemma SortStep(x: Employee, s: seq<Employee>)
    ensures SortByAge([x] + s) == Insert(x, SortByAge(s))
  {
    assert ([x] + s)[1..] == s;
  }

  // The insertions that sort the fixture, one lemma each to keep every proof small.

  lemma FixtureInsertYanac()
    ensures Insert(Yanac, [Numa]) == [Numa, Yanac]
  {
  }

  lemma FixtureInsertRyohey()
    ensures Insert(Ryohey, [Numa, Yanac]) == [Numa, Ryohey, Yanac]
  {
    assert [Numa, Yanac][1..] == [Yanac];
  }

  lemma FixtureInsertMironal()
    ensures Insert(Mironal, [Numa, Ryohey, Yanac]) == [Numa, Mironal, Ryohey, Yanac]
  {
    assert [Numa, Ryohey, Yanac][1..] == [Ryohey, Yanac];
  }

  lemma InsertPastYoungerHead(x: Employee, y: Employee, s: seq<Employee>)
    requires SortedByAge([y] + s) && y.age < x.age
    ensures SortedByAge(s) && Insert(x, [y] + s) == [y] + Insert(x, s)
  {
    assert ([y] + s)[1..] == s;
  }

  lemma FixtureInsertTakkuPastYanac()
    ensures Insert(Takku, [Yanac]) == [Yanac, Takku]
  {
    InsertPastYoungerHead(Takku, Yanac, []);
    assert [Yanac] + [] == [Yanac];
  }

  lemma FixtureInsertTakkuPastRyohey()
    ensures Insert(Takku, [Ryohey, Yanac]) == [Ryohey, Yanac, Takku]
  {
    FixtureInsertTakkuPastYanac();
    assert [Ryohey] + [Yanac] == [Ryohey, Yanac];
    InsertPastYoungerHead(Takku, Ryohey, [Yanac]);
  }

  lemma FixtureInsertTakkuPastMironal()
    ensures Insert(Takku, [Mironal, Ryohey, Yanac]) == [Mironal, Ryohey, Yanac, Takku]
  {
    FixtureInsertTakkuPastRyohey();
    assert [Mironal] + [Ryohey, Yanac] == [Mironal, Ryohey, Yanac];
    InsertPastYoungerHead(Takku, Mironal, [Ryohey, Yanac]);
  }

  lemma FixtureInsertTakku()
    ensures Insert(Takku, [Numa, Mironal, Ryohey, Yanac]) == [Numa, Mironal, Ryohey, Yanac, Takku]
  {
    FixtureInsertTakkuPastMironal();
    assert [Numa] + [Mironal, Ryohey, Yanac] == [Numa, Mironal, Ryohey, Yanac];
    InsertPastYoungerHead(Takku, Numa, [Mironal, Ryohey, Yanac]);
  }

  /** On the fixture the three 17-year-olds keep their fetched order. */
  lemma FixtureSorted()
    ensures SortByAge(FixtureEmployees) == [Numa, Mironal, Ryohey, Yanac, Takku]
  {
    SortStep(Numa, []);
    assert [Numa] + [] == [Numa];
    FixtureInsertYanac();
    SortStep(Yanac, [Numa]);
    FixtureInsertRyohey();
    SortStep(Ryohey, [Yanac, Numa]);
    FixtureInsertMironal();
    SortStep(Mironal, [Ryohey, Yanac, Numa]);
    FixtureInsertTakku();
    SortStep(Takku, [Mironal, Ryohey, Yanac, Numa]);
  }

  lemma FixtureToRows()
    ensures Map(ToRow, [Numa, Mironal, Ryohey, Yanac, Takku]) == [ToRow(Numa), ToRow(Mironal), ToRow(Ryohey), ToRow(Yanac), ToRow(Takku)]
  {
    var sorted := [Numa, Mironal, Ryohey, Yanac, Takku];
    MapAt(ToRow, sorted, 0);
    MapAt(ToRow, sorted, 1);
    MapAt(ToRow, sorted, 2);
    MapAt(ToRow, sorted, 3);
    MapAt(ToRow, sorted, 4);
  }

  lemma FixtureRowValues()
    ensures ToRow(Numa) == EmployeeRow("numa08様", "7ちゃい")
    ensures ToRow(Mironal) == EmployeeRow("mironal様", "17ちゃい")
    ensures ToRow(Ryohey) == EmployeeRow("ryohey様", "17ちゃい")
    ensures ToRow(Yanac) == EmployeeRow("yanac様", "17ちゃい")
    ensures ToRow(Takku) == EmployeeRow("takkumattsu様", "37ちゃい")
  {
    assert IntToDecimal(7) == "7";
    assert IntToDecimal(17) == "17";
    assert IntToDecimal(37) == "37";
  }

  /** The rows the screen receives for the fixture. */
  lemma FixtureRows()
    ensures Rows(FixtureEmployees) == [
      EmployeeRow("numa08様", "7ちゃい"),
      EmployeeRow("mironal様", "17ちゃい"),
      EmployeeRow("ryohey様", "17ちゃい"),
      EmployeeRow("yanac様", "17ちゃい"),
      EmployeeRow("takkumattsu様", "37ちゃい")
    ]
  {
    FixtureSorted();
    FixtureToRows();
    FixtureRowValues();
  }
}
