/**
 An employee is a shareholder whose type tag is "Employee" and whose
 employee id is the same string as its shareholder id.
 */
module Employees {
  import opened ShareHolders

  const EmployeeType: string := "Employee"

  datatype Employee = Employee(base: ShareHolder, shareholderType: string, employeeId: string)

  /** The two facts construction establishes and no later operation breaks. */
  predicate ValidEmployee(e: Employee) {
    e.employeeId == e.base.shareholderId && e.shareholderType == EmployeeType
  }

  function NewEmployee(fullName: string, shareholderId: string): (e: Employee)
    ensures ValidEmployee(e)
    ensures e.employeeId == shareholderId
    ensures e.base.fullName == fullName && GetEquityAwards(e.base) == {}
  {
    Employee(NewShareHolder(fullName, shareholderId), EmployeeType, shareholderId)
  }

  /** The inherited award adder: it touches the award set only. */
  function AddAward(e: Employee, awardId: string): (e': Employee)
    ensures ValidEmployee(e) ==> ValidEmployee(e')
    ensures e'.employeeId == e.employeeId && e'.shareholderType == e.shareholderType
    ensures e'.base.fullName == e.base.fullName
    ensures GetEquityAwards(e'.base) == GetEquityAwards(e.base) + {awardId}
  {
    e.(base := AddEquityAward(e.base, awardId))
  }
}
