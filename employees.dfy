/**
 * The entities of the employee list screen and the projection of one
 * employee onto the row that the table displays.
 */
module Employees {
  import opened Decimal

  /** The session context; its token is what the employee fetch is called with. */
  datatype LoginInfo = LoginInfo(token: string)

  /** One fetched employee. The age is a Swift `Int`, so it may be negative. */
  datatype Employee = Employee(name: string, age: int)

  /** The display projection of one employee (the field name keeps the source's spelling). */
  datatype EmployeeRow = EmployeeRow(displayName: string, dispalyAge: string)

  /** Honorific appended to every name. */
  const NameSuffix: string := "様"

  /** Suffix appended to every rendered age. */
  const AgeSuffix: string := "ちゃい"

  /**
   * `Employee.toRow()`: the name followed by the honorific, and the decimal
   * rendering of the age followed by the age suffix.
   */
  function ToRow(e: Employee): (r: EmployeeRow)
    ensures |r.displayName| == |e.name| + |NameSuffix|
    ensures r.displayName[..|e.name|] == e.name && r.displayName[|e.name|..] == NameSuffix
    ensures |r.dispalyAge| > |AgeSuffix|
    ensures r.dispalyAge[|r.dispalyAge| - |AgeSuffix|..] == AgeSuffix
    ensures IsCanonical(r.dispalyAge[..|r.dispalyAge| - |AgeSuffix|])
    ensures ParseDecimal(r.dispalyAge[..|r.dispalyAge| - |AgeSuffix|]) == Some(e.age)
  {
    ParseOfIntToDecimal(e.age);
    var age := IntToDecimal(e.age);
    assert (age + AgeSuffix)[..|age|] == age;
    EmployeeRow(e.name + NameSuffix, age + AgeSuffix)
  }

  /** Strips the honorific from a displayed name; `None` when it is not there. */
  function NameOf(r: EmployeeRow): (name: Option<string>)
    ensures name.Some? ==> name.value + NameSuffix == r.displayName
  {
    var n := |r.displayName| - |NameSuffix|;
    if n >= 0 && r.displayName[n..] == NameSuffix then Some(r.displayName[..n]) else None
  }

  /** Strips the age suffix from a displayed age and parses the rest; `None` when either step fails. */
  function AgeOf(r: EmployeeRow): (age: Option<int>)
  {
    var n := |r.dispalyAge| - |AgeSuffix|;
    if n >= 0 && r.dispalyAge[n..] == AgeSuffix then ParseDecimal(r.dispalyAge[..n]) else None
  }

  /** A row gives back the name and the age of the employee it was projected from. */
  lemma ToRowRecovers(e: Employee)
    ensures NameOf(ToRow(e)) == Some(e.name)
    ensures AgeOf(ToRow(e)) == Some(e.age)
  {
  }

  /**
   * Two employees give the same row exactly when their names and ages agree:
   * the projection depends on nothing else and loses nothing.
   */
  lemma ToRowInjective(a: Employee, b: Employee)
    ensures ToRow(a) == ToRow(b) <==> a.name == b.name && a.age == b.age
  {
    ToRowRecovers(a);
    ToRowRecovers(b);
  }
}
