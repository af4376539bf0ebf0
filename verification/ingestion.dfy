/** The per-row logic of `init_database`: classifying each imported message with the
    ingestion tables, skipping incomplete rows, and deriving sample customer profiles
    from user ids. */
module Ingestion {
  import opened Wrappers
  import opened Text
  import opened Records
  import opened Keywords

  const HighThreshold: int := 10
  const NormalThreshold: int := 5

  /** The 15-entry ingestion urgency table, in the dictionary's order. */
  const IngestTable: seq<Weighted> := [
    Weighted("urgent", 5), Weighted("emergency", 5), Weighted("immediately", 4), Weighted("asap", 4),
    Weighted("loan", 3), Weighted("disburse", 4), Weighted("approval", 3), Weighted("rejected", 4),
    Weighted("batch number", 3), Weighted("CRB", 3), Weighted("clearance", 3),
    Weighted("payment", 2), Weighted("pay", 2), Weighted("money", 2), Weighted("balance", 2)
  ]

  /** Index of the `'CRB'` entry in the table. */
  const CrbEntry: nat := 9

  const LoanWords: seq<string> := ["loan", "apply", "approved", "rejected"]
  const PaymentWords: seq<string> := ["pay", "payment", "clear", "balance"]
  const ClearanceWords: seq<string> := ["batch", "number", "CRB", "clearance"]
  const UrgentWords: seq<string> := ["urgent", "emergency", "asap", "immediately"]
  const AccountWords: seq<string> := ["update", "change", "number", "phone"]

  /** The if/elif chain of the ingestion loop as an ordered rule list. */
  const IngestRules: seq<Rule> := [
    Rule(LoanApplication, LoanWords), Rule(Payment, PaymentWords), Rule(Clearance, ClearanceWords),
    Rule(UrgentInquiry, UrgentWords), Rule(AccountUpdate, AccountWords)
  ]

  /** The ingestion priority of a score. */
  function IngestPriority(score: int): (p: Priority)
    ensures p == High <==> score >= HighThreshold
    ensures p == Normal <==> NormalThreshold <= score < HighThreshold
    ensures p == Low <==> score < NormalThreshold
  {
    if score >= HighThreshold then High
    else if score >= NormalThreshold then Normal
    else Low
  }

  /** The ingestion category of a lower-cased body. */
  function IngestCategory(lowered: string): Category
  {
    FirstMatch(IngestRules, lowered)
  }

  /** The rule list read as the source's if/elif chain. */
  lemma IngestCategoryChain(lowered: string)
    ensures IngestCategory(lowered) ==
      if AnyContains(lowered, LoanWords) then LoanApplication
      else if AnyContains(lowered, PaymentWords) then Payment
      else if AnyContains(lowered, ClearanceWords) then Clearance
      else if AnyContains(lowered, UrgentWords) then UrgentInquiry
      else if AnyContains(lowered, AccountWords) then AccountUpdate
      else Other
  {
    var r := IngestRules;
    var r1, r2, r3, r4 := r[1..], r[1..][1..], r[1..][1..][1..], r[1..][1..][1..][1..];
    assert r1 == [Rule(Payment, PaymentWords), Rule(Clearance, ClearanceWords),
                  Rule(UrgentInquiry, UrgentWords), Rule(AccountUpdate, AccountWords)];
    assert r2 == [Rule(Clearance, ClearanceWords), Rule(UrgentInquiry, UrgentWords),
                  Rule(AccountUpdate, AccountWords)];
    assert r3 == [Rule(UrgentInquiry, UrgentWords), Rule(AccountUpdate, AccountWords)];
    assert r4 == [Rule(AccountUpdate, AccountWords)];
    assert r4[1..] == [];
    assert FirstMatch(r4, lowered) == if AnyContains(lowered, AccountWords) then AccountUpdate else Other;
    assert FirstMatch(r3, lowered) == if AnyContains(lowered, UrgentWords) then UrgentInquiry else FirstMatch(r4, lowered);
    assert FirstMatch(r2, lowered) == if AnyContains(lowered, ClearanceWords) then Clearance else FirstMatch(r3, lowered);
    assert FirstMatch(r1, lowered) == if AnyContains(lowered, PaymentWords) then Payment else FirstMatch(r2, lowered);
    assert FirstMatch(r, lowered) == if AnyContains(lowered, LoanWords) then LoanApplication else FirstMatch(r1, lowered);
  }

  /** One CSV row: the user id after `to_numeric` (`None` when it could not be read)
      and the raw message-body cell (`None` when the cell is empty). */
  datatype RawRow = RawRow(userId: Option<int>, timestamp: Timestamp, messageBody: Option<string>)

  /** The body column after `astype(str)`: an empty cell becomes the text "nan". */
  function BodyText(cell: Option<string>): string
  {
    if cell.Some? then cell.value else "nan"
  }

  /** A row is imported when its user id could be read; the body test of the loop is
      made on the converted text, which is never missing. */
  predicate Complete(row: RawRow) { row.userId.Some? }

  /** The message created for a complete row. */
  function Ingested(row: RawRow): CustomerMessage
    requires Complete(row)
  {
    var body := BodyText(row.messageBody);
    var score := TableScore(IngestTable, Lower(body));
    CustomerMessage(row.userId.value, row.timestamp, body, None, None, None, Pending,
                    score, IngestPriority(score), IngestCategory(Lower(body)))
  }

  /** The messages created for `rows`: one per complete row, in row order. */
  function IngestAll(rows: seq<RawRow>): seq<CustomerMessage>
  {
    if rows == [] then []
    else
      var last := rows[|rows| - 1];
      IngestAll(rows[..|rows| - 1]) + (if Complete(last) then [Ingested(last)] else [])
  }

  /** The import loop of `init_database`. */
  method IngestMessages(rows: seq<RawRow>) returns (messages: seq<CustomerMessage>)
    ensures messages == IngestAll(rows)
  {
    messages := [];
    for r := 0 to |rows|
      invariant messages == IngestAll(rows[..r])
    {
      assert rows[..r + 1][..r] == rows[..r];
      var row := rows[r];
      var body := BodyText(row.messageBody);
      if row.userId.None? {
        continue;
      }

      var urgencyScore := 0;
      var lowered := Lower(body);
      for k := 0 to |IngestTable|
        invariant urgencyScore == TableScore(IngestTable[..k], lowered)
      {
        var entry := IngestTable[k];
        if Contains(lowered, entry.keyword) {
          urgencyScore := urgencyScore + entry.weight;
        }
        assert IngestTable[..k + 1][..k] == IngestTable[..k];
      }
      assert IngestTable[..|IngestTable|] == IngestTable;

      var priority := Low;
      if urgencyScore >= HighThreshold {
        priority := High;
      } else if urgencyScore >= NormalThreshold {
        priority := Normal;
      }

      var category := Other;
      if AnyContains(lowered, LoanWords) {
        category := LoanApplication;
      } else if AnyContains(lowered, PaymentWords) {
        category := Payment;
      } else if AnyContains(lowered, ClearanceWords) {
        category := Clearance;
      } else if AnyContains(lowered, UrgentWords) {
        category := UrgentInquiry;
      } else if AnyContains(lowered, AccountWords) {
        category := AccountUpdate;
      }
      IngestCategoryChain(lowered);

      var message := CustomerMessage(row.userId.value, row.timestamp, body, None, None, None, Pending,
                                     urgencyScore, priority, category);
      messages := messages + [message];
    }
    assert rows[..|rows|] == rows;
  }

  /** Rows are skipped only when incomplete: the number of messages is at most the
      number of rows, and equal to it exactly when every row is complete. */
  lemma {:induction false} IngestAllCount(rows: seq<RawRow>)
    ensures |IngestAll(rows)| <= |rows|
    ensures |IngestAll(rows)| == |rows| <==> forall i :: 0 <= i < |rows| ==> Complete(rows[i])
  {
    if rows != [] {
      var n := |rows| - 1;
      IngestAllCount(rows[..n]);
      IngestAllLength(rows);
      assert forall i :: 0 <= i < n ==> rows[..n][i] == rows[i];
    }
  }

  /** The last row adds one message when complete and none otherwise. */
  lemma {:induction false} IngestAllLength(rows: seq<RawRow>)
    requires rows != []
    ensures |IngestAll(rows)| == |IngestAll(rows[..|rows| - 1])| + if Complete(rows[|rows| - 1]) then 1 else 0
  {
    var n := |rows| - 1;
    if Complete(rows[n]) {
      assert IngestAll(rows) == IngestAll(rows[..n]) + [Ingested(rows[n])];
    } else {
      assert IngestAll(rows) == IngestAll(rows[..n]);
    }
  }

  /** Ingestion keeps row order: the messages of two batches in a row are the
      messages of the first batch followed by those of the second. */
  lemma {:induction false} IngestAllConcat(a: seq<RawRow>, b: seq<RawRow>)
    ensures IngestAll(a + b) == IngestAll(a) + IngestAll(b)
  {
    if b == [] {
      assert a + b == a;
    } else {
      var n := |b| - 1;
      IngestAllConcat(a, b[..n]);
      assert (a + b)[..|a + b| - 1] == a + b[..n];
      assert (a + b)[|a + b| - 1] == b[n];
    }
  }

  /** A row whose body cell is empty but whose user id is present is not skipped: it is
      imported with the body "nan". */
  lemma MissingBodyImported(row: RawRow)
    requires row.userId.Some? && row.messageBody.None?
    ensures IngestAll([row]) == [Ingested(row)]
    ensures IngestAll([row])[0].messageBody == "nan"
  {
    assert [row][..0] == [];
  }

  /** Every created message is consistent: its score is non-negative and within the 46
      points the table can actually award (its 49-point total minus the unreachable
      `'CRB'` entry), its priority is the bucket of its score (never `medium`), and its
      category is one of the ingestion categories. */
  lemma IngestedConsistent(row: RawRow)
    requires Complete(row)
    ensures var m := Ingested(row);
      && 0 <= m.urgencyScore <= TotalWeight(IngestTable) - IngestTable[CrbEntry].weight
      && m.priority == IngestPriority(m.urgencyScore) && m.priority != Medium
      && m.category in {LoanApplication, Payment, Clearance, UrgentInquiry, AccountUpdate, Other}
      && m.status == Pending && m.agentId.None?
  {
    var lowered := Lower(BodyText(row.messageBody));
    assert NonNegativeWeights(IngestTable);
    TableScoreBounds(IngestTable, lowered);
    assert IsUpper("CRB"[0]);
    UpperWordNeverInLowered(BodyText(row.messageBody), "CRB");
    TableScoreWithAbsentEntry(IngestTable, lowered, CrbEntry);
    FirstMatchLabels(IngestRules, lowered);
  }

  /** `'CRB'` is tested against the lower-cased body, so it never adds points and never
      makes a message `clearance` on its own. Neither does "clearance": it contains
      "clear", a payment keyword tested first. A clearance message therefore holds
      "batch" or "number". */
  lemma CrbIgnored(body: string)
    ensures Points(IngestTable[CrbEntry], Lower(body)) == 0
    ensures IngestCategory(Lower(body)) == Clearance ==>
              Contains(Lower(body), "batch") || Contains(Lower(body), "number")
  {
    var lowered := Lower(body);
    assert IsUpper("CRB"[0]);
    UpperWordNeverInLowered(body, "CRB");
    FirstMatchSpec(IngestRules, lowered);
    if IngestCategory(lowered) == Clearance {
      var i :| 0 <= i < |IngestRules| && Fires(IngestRules[i], lowered) && IngestCategory(lowered) == IngestRules[i].category;
      assert i == 2;
      assert !Fires(IngestRules[1], lowered);
      var j :| 0 <= j < |ClearanceWords| && Contains(lowered, ClearanceWords[j]);
      assert j != 2;
      if j == 3 {
        ClearanceIsPayment(lowered);
        assert false;
      }
    }
  }

  /** A text containing "clearance" contains "clear", so the payment rule fires on it. */
  lemma ClearanceIsPayment(text: string)
    ensures Contains(text, "clearance") ==> Fires(IngestRules[1], text)
  {
    if Contains(text, "clearance") {
      var k :| 0 <= k <= |text| - 9 && OccursAt(text, "clearance", k);
      assert text[k..k + 5] == text[k..k + 9][..5];
      assert OccursAt(text, "clear", k);
      assert Contains(text, PaymentWords[2]);
    }
  }

  /** "number" is a clearance keyword checked before the account-update keywords, so a
      body containing it is never `account_update`. */
  lemma NumberNeverAccountUpdate(body: string)
    requires Contains(Lower(body), "number")
    ensures IngestCategory(Lower(body)) != AccountUpdate
  {
    var lowered := Lower(body);
    assert ClearanceWords[1] == "number";
    assert Fires(IngestRules[2], lowered);
    FirstMatchSpec(IngestRules, lowered);
  }

  // ---------------------------------------------------------------- profiles

  const MaxProfiles: nat := 20
  const LastLoanDate: Date := Date(2023, 12, 1)

  /** The distinct ids in order of first appearance (`Series.unique`). */
  function Unique(ids: seq<int>): seq<int>
  {
    if ids == [] then []
    else
      var u := Unique(ids[..|ids| - 1]);
      if ids[|ids| - 1] in u then u else u + [ids[|ids| - 1]]
  }

  predicate NoDuplicates(s: seq<int>) { forall i, j :: 0 <= i < j < |s| ==> s[i] != s[j] }

  /** The position where `x` first appears in `ids`. */
  function FirstIndex(ids: seq<int>, x: int): (k: nat)
    requires x in ids
    ensures k < |ids| && ids[k] == x && x !in ids[..k]
  {
    if ids[0] == x then 0
    else
      var k := 1 + FirstIndex(ids[1..], x);
      assert ids[..k] == [ids[0]] + ids[1..][..k - 1];
      k
  }

  /** Any position holding `x` with no earlier `x` is the first one. */
  lemma FirstIndexAt(ids: seq<int>, x: int, k: nat)
    requires k < |ids| && ids[k] == x && x !in ids[..k]
    ensures FirstIndex(ids, x) == k
  {
    var f := FirstIndex(ids, x);
    assert forall j :: 0 <= j < k ==> ids[..k][j] == ids[j];
    assert forall j :: 0 <= j < f ==> ids[..f][j] == ids[j];
  }

  /** `unique` keeps each id once, loses none, and lists them in order of first
      appearance. */
  lemma {:induction false} UniqueSpec(ids: seq<int>)
    ensures NoDuplicates(Unique(ids))
    ensures forall x :: x in Unique(ids) <==> x in ids
    ensures forall a, b :: 0 <= a < b < |Unique(ids)| ==>
              FirstIndex(ids, Unique(ids)[a]) < FirstIndex(ids, Unique(ids)[b])
  {
    if ids != [] {
      var n := |ids| - 1;
      var front := ids[..n];
      UniqueSpec(front);
      assert ids == front + [ids[n]];
      var u := Unique(ids);
      forall x | x in front
        ensures FirstIndex(ids, x) == FirstIndex(front, x)
      {
        var k := FirstIndex(front, x);
        assert ids[..k] == front[..k];
        FirstIndexAt(ids, x, k);
      }
      if ids[n] !in Unique(front) {
        assert ids[..n] == front;
        FirstIndexAt(ids, ids[n], n);
      }
    }
  }

  /** The sample phone number: "07" and the id padded with zeros to eight digits. */
  function PhoneFor(userId: int): string
  {
    "07" + ZFill(DecimalString(userId), 8)
  }

  /** The sample profile derived from a user id. */
  function ProfileFor(userId: int): CustomerProfile
  {
    var id := DecimalString(userId);
    CustomerProfile(
      userId,
      "Customer " + id,
      "customer" + id + "@example.com",
      PhoneFor(userId),
      if userId % 3 == 0 then 5000 else if userId % 3 == 1 then 10000 else 15000,
      LastLoanDate,
      if userId % 4 == 0 then Good else if userId % 4 == 1 then Fair else Poor,
      userId % 10 + 1,
      (userId % 10 + 1) * 8000,
      650 + (userId % 10) * 10)
  }

  /** One profile per id, in order. */
  function ProfilesOf(ids: seq<int>): (profiles: seq<CustomerProfile>)
    ensures |profiles| == |ids|
    ensures forall i :: 0 <= i < |ids| ==> profiles[i].userId == ids[i]
  {
    if ids == [] then [] else ProfilesOf(ids[..|ids| - 1]) + [ProfileFor(ids[|ids| - 1])]
  }

  /** One more id adds its profile at the end. */
  lemma ProfilesOfSnoc(ids: seq<int>, i: nat)
    requires i < |ids|
    ensures ProfilesOf(ids[..i + 1]) == ProfilesOf(ids[..i]) + [ProfileFor(ids[i])]
  {
    assert ids[..i + 1][..i] == ids[..i];
  }

  /** The profile at position `i` is the one derived from the id at `i`. */
  lemma {:induction false} ProfilesOfAt(ids: seq<int>, i: nat)
    requires i < |ids|
    ensures ProfilesOf(ids)[i] == ProfileFor(ids[i])
  {
    var n := |ids| - 1;
    if i < n {
      ProfilesOfAt(ids[..n], i);
      assert ids[..n][i] == ids[i];
    }
  }

  /** The profile loop of `init_database`, over the first twenty distinct user ids. */
  method CreateProfiles(rawUserIds: seq<int>) returns (profiles: seq<CustomerProfile>)
    ensures var ids := Unique(rawUserIds);
      && |profiles| == (if |ids| < MaxProfiles then |ids| else MaxProfiles)
      && profiles == ProfilesOf(ids[..|profiles|])
  {
    var ids := Unique(rawUserIds);
    if |ids| > MaxProfiles {
      ids := ids[..MaxProfiles];
    }
    profiles := [];
    for i := 0 to |ids|
      invariant profiles == ProfilesOf(ids[..i])
    {
      ProfilesOfSnoc(ids, i);
      profiles := profiles + [ProfileFor(ids[i])];
    }
    assert ids[..|ids|] == ids;
  }

  /** At most twenty profiles, for distinct user ids that all occur in the input. */
  lemma ProfilesDistinct(rawUserIds: seq<int>, profiles: seq<CustomerProfile>)
    requires var ids := Unique(rawUserIds);
      && |profiles| == (if |ids| < MaxProfiles then |ids| else MaxProfiles)
      && profiles == ProfilesOf(ids[..|profiles|])
    ensures |profiles| <= MaxProfiles
    ensures forall i :: 0 <= i < |profiles| ==> profiles[i].userId in rawUserIds
    ensures forall i, j :: 0 <= i < j < |profiles| ==> profiles[i].userId != profiles[j].userId
  {
    UniqueSpec(rawUserIds);
    var ids := Unique(rawUserIds);
    assert forall i :: 0 <= i < |profiles| ==> ids[..|profiles|][i] == ids[i];
  }

  /** `[:20]` keeps the ids that appear first: an id whose first appearance comes before
      that of a profiled id is profiled ahead of it. */
  lemma ProfilesFirstToAppear(rawUserIds: seq<int>, profiles: seq<CustomerProfile>, i: nat, x: int)
    requires var ids := Unique(rawUserIds);
      && |profiles| == (if |ids| < MaxProfiles then |ids| else MaxProfiles)
      && profiles == ProfilesOf(ids[..|profiles|])
    requires i < |profiles| && x in rawUserIds && profiles[i].userId in rawUserIds
    requires FirstIndex(rawUserIds, x) < FirstIndex(rawUserIds, profiles[i].userId)
    ensures exists j :: 0 <= j < i && profiles[j].userId == x
  {
    UniqueSpec(rawUserIds);
    var ids := Unique(rawUserIds);
    var a :| 0 <= a < |ids| && ids[a] == x;
    assert ids[..|profiles|][i] == ids[i];
    assert a < i;
    assert ids[..|profiles|][a] == ids[a];
    assert profiles[a].userId == x;
  }

  /** The arithmetic fields of a profile: the loan amount and repayment tier cycle with
      the id, between 1 and 10 loans, 8000 repaid per loan, and a credit score from 650
      to 740 that rises by 10 with each loan past the first. */
  lemma ProfileFields(userId: int)
    ensures var p := ProfileFor(userId);
      && p.lastLoanAmount in {5000, 10000, 15000}
      && (p.lastLoanAmount == 5000 <==> userId % 3 == 0)
      && (p.lastLoanAmount == 10000 <==> userId % 3 == 1)
      && (p.lastLoanAmount == 15000 <==> userId % 3 == 2)
      && (p.repaymentHistory == Good <==> userId % 4 == 0)
      && (p.repaymentHistory == Fair <==> userId % 4 == 1)
      && (p.repaymentHistory == Poor <==> userId % 4 in {2, 3})
      && 1 <= p.totalLoans <= 10
      && p.totalRepaid == p.totalLoans * 8000
      && 650 <= p.creditScore <= 740
      && p.creditScore == 640 + 10 * p.totalLoans
  {
  }

  /** `str(n).zfill(8)`: at least eight digits, exactly eight below 10^8, reading back
      as `n`. */
  lemma PaddedId(n: nat)
    ensures var z := ZFill(NatString(n), 8);
      && |z| >= 8 && AllDigits(z) && DigitsValue(z) == n
      && (n < 100000000 ==> |z| == 8)
  {
    var id := NatString(n);
    NatStringRoundTrip(n);
    if |id| < 8 {
      LeadingZeros(8 - |id|, id);
    }
    if n < 100000000 {
      NatStringLength(n);
    }
  }

  /** For a non-negative id the phone is "07" followed by at least eight digits that
      read back as the id; ids below 10^8 give exactly ten characters. */
  lemma ProfilePhone(userId: int)
    requires userId >= 0
    ensures var phone := PhoneFor(userId);
      && |phone| >= 10 && phone[..2] == "07" && AllDigits(phone[2..])
      && DigitsValue(phone[2..]) == userId
      && (userId < 100000000 ==> |phone| == 10)
  {
    var z := ZFill(NatString(userId), 8);
    PaddedId(userId);
    assert PhoneFor(userId) == "07" + z;
    assert ("07" + z)[2..] == z;
  }

  lemma {:induction false} NatStringLength(n: nat)
    requires n < 100000000
    ensures |NatString(n)| <= 8
  {
    var k: nat := n;
    var bound: nat := 100000000;
    var len := 8;
    while k >= 10
      invariant k < bound && len >= 1 && bound == Pow10(len)
      invariant |NatString(n)| == |NatString(k)| + (8 - len)
      decreases k
    {
      k := k / 10;
      bound := bound / 10;
      len := len - 1;
    }
  }

  function Pow10(n: nat): nat { if n == 0 then 1 else 10 * Pow10(n - 1) }
}
