/** The app's records and enumerations. Money is a real number, a
    transaction's date is the millisecond timestamp its ISO string parses to,
    and the other dates stay opaque strings because nothing computes on them. */
module Types {

  datatype Option<+T> = None | Some(value: T)

  datatype TransactionType = Expense | Income

  datatype Category =
    | Groceries | Transport | Utilities | Shopping | Restaurant
    | Entertainment | Health | Housing | Salary | Other
  {
    /** The enumeration's string value. */
    function Name(): string {
      match this
      case Groceries => "Groceries"
      case Transport => "Transport"
      case Utilities => "Utilities"
      case Shopping => "Shopping"
      case Restaurant => "Restaurant"
      case Entertainment => "Entertainment"
      case Health => "Health"
      case Housing => "Housing"
      case Salary => "Salary"
      case Other => "Other"
    }
  }

  /** The members of `Category` in declaration order, the order in which
      `Object.keys(Category)` lists them. */
  const AllCategories: seq<Category> :=
    [Groceries, Transport, Utilities, Shopping, Restaurant,
     Entertainment, Health, Housing, Salary, Other]

  datatype Merchant = Merchant(id: string, name: string, defaultCategory: Category)

  datatype Transaction = Transaction(
    id: string,
    amount: real,
    kind: TransactionType,
    category: Category,
    merchantName: string,
    date: int)

  datatype DebtType = IOwe | OwedToMe

  datatype Debt = Debt(
    id: string,
    personName: string,
    amount: real,
    kind: DebtType,
    description: string,
    date: string,
    isSettled: bool)

  datatype GroupExpense = GroupExpense(
    id: string,
    description: string,
    amount: real,
    paidBy: string,
    date: string)

  datatype EventKind = Trip | Party | Dinner | OtherEvent

  datatype GroupEvent = GroupEvent(
    id: string,
    title: string,
    kind: EventKind,
    participants: seq<string>,
    expenses: seq<GroupExpense>,
    date: string,
    currency: Option<string>)

  datatype AvatarItem = AvatarItem(name: string, style: string, seed: string)

  datatype UserProfile = UserProfile(name: string, avatar: AvatarItem)

  datatype DateRange = OneWeek | OneMonth | ThreeMonths | SixMonths | OneYear | All
}
