/** The persisted entities the triage engine annotates (the `CustomerMessage` and
    `CustomerProfile` tables) and the closed label sets stored in their text columns. */
module Records {
  import opened Wrappers

  /** Priority labels. The display scorer uses `medium` for the middle tier and the
      ingestion scorer uses `normal`; both labels exist in the colour table. */
  datatype Priority = Low | Medium | Normal | High
  {
    function Label(): string
    {
      match this
      case Low => "low"
      case Medium => "medium"
      case Normal => "normal"
      case High => "high"
    }

    /** Position of the tier: low < medium/normal < high. */
    function Rank(): nat
    {
      match this
      case Low => 0
      case Medium => 1
      case Normal => 1
      case High => 2
    }
  }

  /** Every category label either classifier can produce. The display classifier uses
      the first seven, the ingestion classifier uses loan_application, payment,
      clearance, urgent_inquiry and account_update; both fall back to `other`. */
  datatype Category =
    | LoanApplication | Payment | Technical | Account | Urgent | Fraud | General
    | Clearance | UrgentInquiry | AccountUpdate
    | Other
  {
    function Label(): string
    {
      match this
      case LoanApplication => "loan_application"
      case Payment => "payment"
      case Technical => "technical"
      case Account => "account"
      case Urgent => "urgent"
      case Fraud => "fraud"
      case General => "general"
      case Clearance => "clearance"
      case UrgentInquiry => "urgent_inquiry"
      case AccountUpdate => "account_update"
      case Other => "other"
    }
  }

  datatype Status = Pending | InProgress | Resolved
  {
    function Label(): string
    {
      match this
      case Pending => "pending"
      case InProgress => "in_progress"
      case Resolved => "resolved"
    }
  }

  /** Timestamps are opaque instants; only the ingestion order and elapsed times matter. */
  type Timestamp = int

  /** A row of `customer_messages`, without the database-assigned `id`. */
  datatype CustomerMessage = CustomerMessage(
    userId: int,
    timestamp: Timestamp,
    messageBody: string,
    agentId: Option<string>,
    response: Option<string>,
    responseTimestamp: Option<Timestamp>,
    status: Status,
    urgencyScore: int,
    priority: Priority,
    category: Category)

  datatype Repayment = Good | Fair | Poor
  {
    function Label(): string
    {
      match this
      case Good => "good"
      case Fair => "fair"
      case Poor => "poor"
    }
  }

  /** A calendar date (the only one the model needs is the fixed last-loan date). */
  datatype Date = Date(year: int, month: int, day: int)

  /** A row of `customer_profiles`. */
  datatype CustomerProfile = CustomerProfile(
    userId: int,
    name: string,
    email: string,
    phone: string,
    lastLoanAmount: int,
    lastLoanDate: Date,
    repaymentHistory: Repayment,
    totalLoans: int,
    totalRepaid: int,
    creditScore: int)
}
