# rx_practice employee list: the load transformation in Dafny

The `rx_practice` macOS sample builds a list of employee rows and prints each list that its
view model publishes; the table outlet is declared but never filled. Each "load" event on
the view model fetches an employee list. The list is then transformed in two steps:

1. it is sorted ascending by age (`sorted { $0.age < $1.age }`);
2. every employee is projected to an `EmployeeRow` (`map { $0.toRow() }`).

`toRow()` appends the honorific `様` to the name. It renders the age in decimal and
appends `ちゃい`.

This project models that transformation as pure Dafny and proves its contract:

- the sort returns a permutation of the input;
- the result is non-decreasing in age;
- the sort is stable: for every age, employees of that age keep their input order;
- a list that is ordered by age and stable in this sense is uniquely determined, so
  `SortByAge` is *the* stable sort;
- the projection loses nothing: the name and the age can be read back from a row, and
  two employees give the same row exactly when their fields agree;
- the published rows are, one per employee, the projections of the sorted list;
- on the fixture list, the rows come out in the expected order.

Modules, leaves first:

- `Decimal` (`decimal.dfy`): the `"\(age)"` interpolation of a Swift `Int` as
  `IntToDecimal`. A `-` is prepended for negative numbers. `ParseDecimal` is its partner.
  The two are proved mutually inverse on the canonical decimal strings.
- `Employees` (`employees.dfy`): the `LoginInfo`, `Employee` and `EmployeeRow` structs
  as datatypes. The field name `dispalyAge` keeps the source's spelling. Also `ToRow`
  and its inverses `NameOf` and `AgeOf`.
- `AgeSort` (`age_sort.dfy`): a stable insertion sort keyed on age, with the properties
  listed above. Stability is stated through `WithAge(s, a)`, the sub-sequence of employees
  of age `a`. `SameOrderPerAge(out, xs)` says that this sub-sequence is the same in `out`
  and `xs` for every `a`.
- `Seqs` (`seqs.dfy`): Swift's `Array.map` as a generic `Map`, with index and permutation
  lemmas.
- `ViewModel` (`view_model.dfy`): `Rows(fetched)`, the value published for one fetched
  list, and its properties.
- `Fixture` (`fixture.dfy`): the constants returned by the stand-in `getLoginInfo` and
  `getEmployee`, and the rows computed from them.

Two points about the source that the model makes explicit:

- Swift's `Int` may be negative, so the model uses `int` and renders a leading `-`.
- The code relies on `sorted(by:)` keeping employees of equal age in input order. The
  model's sort is stable by proof. The fixture order (mironal, ryohey, yanac among the
  17-year-olds) depends on that stability.

## Model

| member | source | states |
|---|---|---|
| `Decimal.NatToDecimal` | rx_practice/ViewController.swift:37 | The rendering of a non-negative age is a non-empty string of digits. It starts with `0` exactly when the age is 0, and it is one digit long exactly when the age is below 10. |
| `Decimal.IntToDecimal` | rx_practice/ViewController.swift:37 | The interpolated age is a canonical decimal string. It starts with `-` exactly when the age is negative. |
| `Decimal.ParseOfIntToDecimal` | rx_practice/ViewController.swift:37 | Parsing the rendered age gives the age back, for every integer. |
| `Decimal.IntToDecimalOfParse` | rx_practice/ViewController.swift:37 | Every canonical decimal string parses, and rendering the parsed value gives the same string back, so the rendering is onto the canonical strings. |
| `Decimal.CanonicalIsRendering` | rx_practice/ViewController.swift:37 | A canonical decimal string that parses to `n` is the rendering of `n`, so a canonical string is determined by its value. |
| `Decimal.IntToDecimalInjective` | rx_practice/ViewController.swift:37 | Two ages render to the same text exactly when they are equal. |
| `Employees.ToRow` | rx_practice/ViewController.swift:36-38 | `displayName` is the name followed by exactly `様`. `dispalyAge` ends in `ちゃい`, and the text before that suffix is a canonical decimal string that parses back to the age. By `Decimal.CanonicalIsRendering`, that text is therefore exactly the decimal rendering of the age. |
| `Employees.NameOf` | rx_practice/ViewController.swift:37 | A name recovered from a row, followed by `様`, is the displayed name. |
| `Employees.ToRowRecovers` | rx_practice/ViewController.swift:37 | From the row of an employee, `NameOf` recovers the name and `AgeOf` recovers the age. |
| `Employees.ToRowInjective` | rx_practice/ViewController.swift:36-38 | Two employees give equal rows if and only if their names and ages are equal, so the row depends on those two fields only and loses neither. |
| `AgeSort.Insert` | rx_practice/ViewController.swift:83 | Inserting into an age-sorted list gives an age-sorted list. The new employee comes before the elements of its own age, matching its input position, and every age's order is kept. |
| `AgeSort.InsertPermutes` | rx_practice/ViewController.swift:83 | Insertion adds exactly the one employee: the multiset grows by it and nothing else changes. |
| `AgeSort.SortByAge` | rx_practice/ViewController.swift:83 | The sorted list is non-decreasing in age and has the same length and multiset as the input. For every age, the employees of that age appear in their input order (stability). |
| `AgeSort.StableSortUnique` | rx_practice/ViewController.swift:83 | Two lists that are both age-sorted and have the same per-age sub-sequences are equal. |
| `AgeSort.SortByAgeCharacterized` | rx_practice/ViewController.swift:83 | A list equals `SortByAge(xs)` if and only if it is age-sorted and keeps the per-age order of `xs`. |
| `AgeSort.SortByAgeOfSorted` | rx_practice/ViewController.swift:83 | A list that is already ordered by age comes back unchanged. |
| `Seqs.Map` | rx_practice/ViewController.swift:84 | `map` gives exactly one result per element. |
| `Seqs.MapAt` | rx_practice/ViewController.swift:84 | Element `i` of the mapped list is the function applied to element `i`. |
| `Seqs.MapPermutation` | rx_practice/ViewController.swift:84 | Mapping two rearrangements of the same elements gives two rearrangements of the same results. |
| `ViewModel.Rows` | rx_practice/ViewController.swift:83-84 | One row is published per fetched employee. |
| `ViewModel.RowsAt` | rx_practice/ViewController.swift:83-84 | Row `i` is `ToRow` of the `i`-th employee of the sorted list. The two passes therefore give what one fused sort-and-project pass gives. |
| `ViewModel.RowsOfStableArrangement` | rx_practice/ViewController.swift:83-84 | The rows are the projections of any list that is ordered by age and keeps the per-age input order. There is exactly one such list. |
| `ViewModel.RowsArePermutedProjections` | rx_practice/ViewController.swift:83-84 | The rows are the projections of the fetched employees, each taken exactly as often as it was fetched. |
| `ViewModel.RowsAscendingByDisplayedAge` | rx_practice/ViewController.swift:83-84 | Reading the age back from the published rows gives a non-decreasing sequence. |
| `Fixture.FixtureSorted` | rx_practice/ViewController.swift:13-17 | The fixture sorts to numa08, mironal, ryohey, yanac, takkumattsu. The three 17-year-olds keep their fetched order. |
| `Fixture.FixtureRows` | rx_practice/ViewController.swift:13-17 | The fixture's rows are numa08様/7ちゃい, mironal様/17ちゃい, ryohey様/17ちゃい, yanac様/17ちゃい and takkumattsu様/37ちゃい, in that order. |

The three structs map one to one onto datatypes with the same fields: `Employees.LoginInfo`
(rx_practice/ViewController.swift:26-28), `Employees.Employee` (lines 30-33) and
`Employees.EmployeeRow` (lines 41-44).

## Left out

- The RxSwift operator chain (`PublishRelay`, `withLatestFrom`, `flatMap`, `Single`, `asDriver(onErrorDriveWith: .empty())`) is not modelled. It is asynchronous library behaviour: replay, caching, subscription and error suppression belong to RxSwift, whose source is not part of this model. Because of this, no error path is modelled either. On a failure the code's fallback `Driver.empty()` emits no element at all, and the model does not represent that.
- The commented-out `combineLatest` variant (lines 72-79) is dead code. It differs from the active chain only in subscription semantics.
- `getLoginInfo` and `getEmployee` appear only as the constants they return (`Fixture.FixtureLogin`, `Fixture.FixtureEmployees`). `getEmployee` ignores its token, so no property depends on `LoginInfo.token`.
- `ViewController` (view lifecycle, the table outlet, `print` output, `DisposeBag`) and the protocols `ViewModelInputs`, `ViewModelOutputs` and `ViewModelType` are UI and interface plumbing with no behaviour of their own.
- Swift's `Int` is 64 bits wide. No arithmetic is done on ages, so the model uses unbounded `int`, and the rendering of every 64-bit value is covered.
- Swift's `String` counts extended grapheme clusters and compares by Unicode canonical equivalence. The model's strings are sequences of Unicode scalar values. Concatenation agrees between the two. Equality does not: `"\u{E9}"` and `"e\u{301}"` are equal Swift strings but different Dafny strings. `Employees.ToRowInjective` and `Employees.NameOf` are about scalar-sequence equality; the source never compares rows. Lengths can differ too, and the model only uses lengths to split off the known suffixes.
- Swift's own `sorted(by:)` algorithm is not modelled. The model's insertion sort is proved equal to the unique stable ordering, which is what the code relies on.
